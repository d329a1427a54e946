/** The App component of src/App.tsx: the session state machine over the
    five state variables, the one-second tick, the statistics pass and
    deletion. Wall-clock reads (`Date.now()`, `new Date()`) and the id they
    produce are parameters of the handlers. */
module App {
  import opened Types
  import opened Stats
  import opened JsArray
  import opened EntryForm

  // ---------------------------------------------------------------- the tick

  /** What the interval callback closed over when the effect ran: the
      `startTime` the effect computed and the `accumulatedTime` of that
      render. */
  datatype TickClosure = TickClosure(startTime: int, accumulated: int)

  /** The effect's `Date.now() - (elapsedTime * 1000)`: the instant from
      which the displayed seconds are counted, chosen so that a tick at
      `now` with nothing added shows `elapsed` again. */
  function EffectStart(now: int, elapsed: int): (start: int)
    ensures now - start == elapsed * 1000
    ensures TickElapsed(now, start, 0) == elapsed
  {
    now - elapsed * 1000
  }

  /** One tick: `Math.floor((Date.now() - startTime) / 1000) + accumulatedTime`,
      that is the whole seconds since `startTime`, plus the captured
      accumulated seconds. */
  function TickElapsed(now: int, startTime: int, accumulated: int): (r: int)
    ensures (r - accumulated) * 1000 <= now - startTime < (r - accumulated + 1) * 1000
  {
    (now - startTime) / 1000 + accumulated
  }

  /** On the first running segment (nothing elapsed, nothing banked) a
      tick shows the whole seconds since the segment began. */
  lemma FirstSegment(runStart: int, now: int)
    ensures var r := TickElapsed(now, EffectStart(runStart, 0), 0);
      r * 1000 <= now - runStart < (r + 1) * 1000
  {
  }

  /** After a resume, the effect starts counting `elapsed` seconds before
      the resume and also adds the banked seconds, which equal `elapsed`
      since the pause assigned them: the banked time is counted twice. */
  lemma AfterResume(runStart: int, now: int, banked: int)
    ensures TickElapsed(now, EffectStart(runStart, banked), banked)
         == TickElapsed(now, EffectStart(runStart, 0), 0) + 2 * banked
  {
    var x := now - runStart;
    assert now - EffectStart(runStart, banked) == x + banked * 1000;
    assert (x + banked * 1000) / 1000 == x / 1000 + banked by {
      var q, r := x / 1000, x % 1000;
      assert x + banked * 1000 == (q + banked) * 1000 + r;
    }
  }

  // ---------------------------------------------------------------- deletion

  /** The test `handleDelete` filters with: another id than `id`. */
  function OtherId(id: string): TimeEntry -> bool {
    (e: TimeEntry) => e.id != id
  }

  /** `entries.filter((entry) => entry.id !== id)`. */
  function RemoveById(s: seq<TimeEntry>, id: string): (r: seq<TimeEntry>)
    ensures forall k :: 0 <= k < |r| ==> r[k].id != id
  {
    Filter(s, OtherId(id))
  }

  /** Exactly the entries with another id are kept, in their order. */
  lemma RemoveByIdMembers(s: seq<TimeEntry>, id: string)
    ensures forall e :: e in RemoveById(s, id) <==> e in s && e.id != id
    ensures forall a, b :: s == a + b ==> RemoveById(s, id) == RemoveById(a, id) + RemoveById(b, id)
  {
    FilterMembers(s, OtherId(id));
    forall a, b | s == a + b ensures RemoveById(s, id) == RemoveById(a, id) + RemoveById(b, id) {
      FilterAppend(a, b, OtherId(id));
    }
  }

  /** Deleting an id that no entry has changes nothing. */
  lemma RemoveByIdAbsent(s: seq<TimeEntry>, id: string)
    requires forall i :: 0 <= i < |s| ==> s[i].id != id
    ensures RemoveById(s, id) == s
  {
    FilterAllKept(s, OtherId(id));
  }

  /** With distinct ids, deleting an entry's id removes exactly that
      entry and keeps the others in order. */
  lemma RemoveByIdUnique(s: seq<TimeEntry>, i: nat)
    requires i < |s|
    requires forall j, k :: 0 <= j < k < |s| ==> s[j].id != s[k].id
    ensures RemoveById(s, s[i].id) == s[..i] + s[i + 1..]
  {
    forall j | 0 <= j < |s| && j != i ensures OtherId(s[i].id)(s[j]) {
      if j < i { assert s[j].id != s[i].id; } else { assert s[i].id != s[j].id; }
    }
    FilterDropsOne(s, i, OtherId(s[i].id));
  }

  // ---------------------------------------------------------------- the component state

  class Tracker {
    var entries: seq<TimeEntry>
    var currentEntry: Option<TimeEntry>
    var elapsedTime: int
    var accumulatedTime: int
    var lastPauseTime: Option<int>
    /** The live one-second interval, if the effect started one. */
    var interval: Option<TickClosure>

    /** Stored entries are completed; the current entry has no end time and
        runs exactly when no pause time is recorded; a pause time is only
        recorded for a current entry. */
    ghost predicate Valid()
      reads this`entries, this`currentEntry, this`lastPauseTime
    {
      && (forall i :: 0 <= i < |entries| ==> IsCompleted(entries[i]))
      && (currentEntry.Some? ==> currentEntry.value.endTime.None?)
      && (currentEntry.Some? ==> (currentEntry.value.isRunning <==> lastPauseTime.None?))
      && (currentEntry.None? ==> lastPauseTime.None?)
    }

    constructor ()
      ensures Valid()
      ensures entries == [] && currentEntry == None && lastPauseTime == None
      ensures elapsedTime == 0 && accumulatedTime == 0 && interval == None
    {
      entries := [];
      currentEntry := None;
      elapsedTime := 0;
      accumulatedTime := 0;
      lastPauseTime := None;
      interval := None;
    }

    /** `handleStart`: a new running entry replaces any current one (which
        is dropped, not stored); the counters are reset. */
    method Start(data: EntryData, id: string, now: int)
      requires Valid()
      modifies this
      ensures Valid()
      ensures currentEntry == Some(TimeEntry(id, data.title, data.description, data.category, data.labels, now, None, true))
      ensures elapsedTime == 0 && accumulatedTime == 0 && lastPauseTime == None
      ensures entries == old(entries) && interval == old(interval)
    {
      currentEntry := Some(TimeEntry(id, data.title, data.description, data.category, data.labels, now, None, true));
      elapsedTime := 0;
      accumulatedTime := 0;
      lastPauseTime := None;
    }

    /** The entry form's submit handler is `handleStart`: a submit that
        goes through starts a new entry with the submitted fields; one
        that does not leaves the tracker as it was. */
    method SubmitForm(form: Form, id: string, now: int)
      requires Valid() && form.Valid()
      modifies this, form`title, form`description, form`category, form`labels
      ensures Valid() && form.Valid()
      ensures CanSubmit(old(form.title), old(form.category)) ==>
        && currentEntry == Some(TimeEntry(id, old(form.title), old(form.description), old(form.category), old(form.labels), now, None, true))
        && elapsedTime == 0 && accumulatedTime == 0 && lastPauseTime == None
        && form.title == "" && form.description == "" && form.category == "" && form.labels == []
      ensures !CanSubmit(old(form.title), old(form.category)) ==>
        && currentEntry == old(currentEntry) && lastPauseTime == old(lastPauseTime)
        && elapsedTime == old(elapsedTime) && accumulatedTime == old(accumulatedTime)
        && form.title == old(form.title) && form.description == old(form.description)
        && form.category == old(form.category) && form.labels == old(form.labels)
      ensures form.currentLabel == old(form.currentLabel)
      ensures entries == old(entries) && interval == old(interval)
    {
      var submitted := form.Submit();
      if submitted.Some? {
        Start(submitted.value, id, now);
      }
    }

    /** `handlePause`: with a current entry, stop it running, assign (not
        add) the displayed seconds to the banked seconds and record the
        pause time; without one, do nothing. */
    method Pause(now: int)
      requires Valid()
      modifies this
      ensures Valid()
      ensures old(currentEntry).Some? ==>
        && currentEntry == Some(old(currentEntry).value.(isRunning := false))
        && accumulatedTime == old(elapsedTime)
        && lastPauseTime == Some(now)
      ensures old(currentEntry).None? ==>
        currentEntry == old(currentEntry) && accumulatedTime == old(accumulatedTime) && lastPauseTime == old(lastPauseTime)
      ensures entries == old(entries) && elapsedTime == old(elapsedTime) && interval == old(interval)
    {
      if currentEntry.Some? {
        currentEntry := Some(currentEntry.value.(isRunning := false));
        lastPauseTime := Some(now);
        accumulatedTime := elapsedTime;
      }
    }

    /** `handleResume`: only with a current entry and a truthy pause time
        (a recorded time of 0 is falsy), set it running again and clear the
        pause time; the banked seconds are left as they are. */
    method Resume()
      requires Valid()
      modifies this
      ensures Valid()
      ensures var acts := old(currentEntry).Some? && old(lastPauseTime).Some? && old(lastPauseTime).value != 0;
        if acts then
          currentEntry == Some(old(currentEntry).value.(isRunning := true)) && lastPauseTime == None
        else
          currentEntry == old(currentEntry) && lastPauseTime == old(lastPauseTime)
      ensures entries == old(entries) && elapsedTime == old(elapsedTime)
      ensures accumulatedTime == old(accumulatedTime) && interval == old(interval)
    {
      if currentEntry.Some? && lastPauseTime.Some? && lastPauseTime.value != 0 {
        currentEntry := Some(currentEntry.value.(isRunning := true));
        lastPauseTime := None;
      }
    }

    /** `handleStop`: with a current entry, put it, completed at `now`, in
        front of the stored entries and reset the session; the displayed
        seconds are not stored. Without one, do nothing. */
    method Stop(now: int)
      requires Valid()
      modifies this
      ensures Valid()
      ensures old(currentEntry).Some? ==>
        && entries == [old(currentEntry).value.(isRunning := false, endTime := Some(now))] + old(entries)
        && currentEntry == None && lastPauseTime == None
        && elapsedTime == 0 && accumulatedTime == 0
      ensures old(currentEntry).None? ==>
        && entries == old(entries) && currentEntry == old(currentEntry) && lastPauseTime == old(lastPauseTime)
        && elapsedTime == old(elapsedTime) && accumulatedTime == old(accumulatedTime)
      ensures interval == old(interval)
    {
      if currentEntry.Some? {
        var completed := currentEntry.value.(isRunning := false, endTime := Some(now));
        entries := [completed] + entries;
        currentEntry := None;
        elapsedTime := 0;
        accumulatedTime := 0;
        lastPauseTime := None;
      }
    }

    /** `handleDelete`. */
    method Delete(id: string)
      requires Valid()
      modifies this`entries
      ensures Valid()
      ensures entries == RemoveById(old(entries), id)
    {
      FilterMembers(entries, OtherId(id));
      entries := RemoveById(entries, id);
      forall k | 0 <= k < |entries| ensures IsCompleted(entries[k]) {
        assert entries[k] in old(entries);
      }
    }

    /** The effect, run again after a render in which the current entry's
        running flag or the banked seconds changed: the previous interval
        is cleared and, if the current entry is running, a new one is
        started that counts from `EffectStart(now, elapsedTime)` and adds
        the banked seconds of this render. */
    method RunEffect(now: int)
      requires Valid()
      modifies this`interval
      ensures Valid()
      ensures interval ==
        if currentEntry.Some? && currentEntry.value.isRunning
        then Some(TickClosure(EffectStart(now, elapsedTime), accumulatedTime))
        else None
    {
      if currentEntry.Some? && currentEntry.value.isRunning {
        interval := Some(TickClosure(EffectStart(now, elapsedTime), accumulatedTime));
      } else {
        interval := None;
      }
    }

    /** One firing of the interval, if there is one. */
    method Tick(now: int)
      requires Valid()
      modifies this`elapsedTime
      ensures Valid()
      ensures elapsedTime ==
        if interval.Some? then TickElapsed(now, interval.value.startTime, interval.value.accumulated)
        else old(elapsedTime)
    {
      if interval.Some? {
        elapsedTime := TickElapsed(now, interval.value.startTime, interval.value.accumulated);
      }
    }

    /** `calculateStats`: one pass over the entries accumulating the total,
        the per-category buckets and, for every label of every entry, the
        per-label buckets. */
    method CalculateStats() returns (stats: TimeStats)
      ensures stats.totalTime == TotalTime(entries)
      ensures stats.categoryBreakdown == CategoryBreakdown(entries)
      ensures stats.labelBreakdown == LabelBreakdown(entries)
      ensures SumValues(stats.categoryBreakdown) == stats.totalTime
      ensures SumValues(stats.labelBreakdown) == WeightedTime(entries)
    {
      var totalTime := 0.0;
      var categoryBreakdown: map<string, real> := map[];
      var labelBreakdown: map<string, real> := map[];
      var i := 0;
      assert entries[..0] == [];
      while i < |entries|
        invariant 0 <= i <= |entries|
        invariant totalTime == TotalTime(entries[..i])
        invariant categoryBreakdown == CategoryFold(entries[..i])
        invariant labelBreakdown == LabelFold(entries[..i])
      {
        var entry := entries[i];
        assert entries[..i + 1][..i] == entries[..i];
        var duration := if entry.endTime.Some? then (entry.endTime.value - entry.startTime) as real / 1000.0 else 0.0;
        totalTime := totalTime + duration;
        categoryBreakdown := categoryBreakdown[entry.category := Get(categoryBreakdown, entry.category) + duration];
        ghost var base := labelBreakdown;
        var j := 0;
        assert entry.labels[..0] == [];
        while j < |entry.labels|
          invariant 0 <= j <= |entry.labels|
          invariant labelBreakdown == Credit(base, entry.labels[..j], duration)
        {
          var l := entry.labels[j];
          CreditNext(base, entry.labels, j, duration);
          labelBreakdown := labelBreakdown[l := Get(labelBreakdown, l) + duration];
          j := j + 1;
        }
        assert entry.labels[..j] == entry.labels;
        i := i + 1;
      }
      assert entries[..i] == entries;
      stats := TimeStats(totalTime, categoryBreakdown, labelBreakdown);
      CategoryFoldIsBreakdown(entries);
      LabelFoldIsBreakdown(entries);
      CategoryBreakdownSum(entries);
      LabelBreakdownSum(entries);
    }
  }

  // ---------------------------------------------------------------- two sessions

  /** Thirty seconds running, five seconds paused, twenty seconds running
      again, then stop: just before the stop the display shows 80 seconds
      (the 30 banked seconds counted twice), and the stored entry lasts 55
      seconds (the pause is included). */
  method PauseResumeSession(t0: int, id: string, data: EntryData) returns (shown: int, stored: real)
    requires t0 >= 0
    ensures shown == 80
    ensures stored == 55.0
  {
    var app := new Tracker();
    app.Start(data, id, t0);
    app.RunEffect(t0);
    app.Tick(t0 + 30000);
    assert app.elapsedTime == 30;
    app.Pause(t0 + 30000);
    app.RunEffect(t0 + 30000);
    app.Resume();
    app.RunEffect(t0 + 35000);
    app.Tick(t0 + 55000);
    shown := app.elapsedTime;
    app.Stop(t0 + 55000);
    stored := Duration(app.entries[0]);
  }

  /** Starting a new entry while another has run 60 seconds of its first
      segment: the running flag stays true and the banked seconds stay 0,
      so the effect does not run again and the old interval keeps
      counting from the old start. One second later the new entry shows
      61 seconds. */
  method RestartWhileRunning(t0: int, id: string, other: string, data: EntryData) returns (shown: int)
    ensures shown == 61
  {
    var app := new Tracker();
    app.Start(data, id, t0);
    app.RunEffect(t0);
    app.Start(data, other, t0 + 60000);
    assert app.currentEntry.value.isRunning && app.accumulatedTime == 0;
    app.Tick(t0 + 61000);
    shown := app.elapsedTime;
  }

  /** One ninety-second "Work" entry labelled "deep-work" gives 90 seconds
      in total, under its category and under its label. */
  method SingleEntrySession(t0: int, id: string) returns (stats: TimeStats)
    ensures stats == TimeStats(90.0, map["Work" := 90.0], map["deep-work" := 90.0])
  {
    var app := new Tracker();
    app.Start(EntryData("Write spec", "", "Work", ["deep-work"]), id, t0);
    app.Stop(t0 + 90000);
    stats := app.CalculateStats();
    var s := app.entries;
    assert |s| == 1 && s[..0] == [];
    assert Duration(s[0]) == 90.0;
    assert Categories(s) == {"Work"};
    assert Labels(s) == {"deep-work"} by {
      assert Elements(s[0].labels) == {"deep-work"};
    }
    assert LabelShare(s[0].labels, "deep-work", 90.0) == 90.0 by {
      assert s[0].labels[..0] == [];
    }
  }
}
