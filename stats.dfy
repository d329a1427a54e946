/** What `calculateStats` (src/App.tsx) computes, stated entry by entry:
    the total tracked time, the time per category and the time per label,
    in exact seconds. The pass itself is `App.Tracker.CalculateStats`. */
module Stats {
  import opened Types
  import opened JsArray

  /** An entry's contribution: `(endTime - startTime) / 1000` seconds when
      it has an end time, 0 while it has none. */
  function Duration(e: TimeEntry): (d: real)
    ensures e.endTime.None? ==> d == 0.0
    ensures e.endTime.Some? ==> d * 1000.0 == (e.endTime.value - e.startTime) as real
  {
    match e.endTime
    case None => 0.0
    case Some(end) => (end - e.startTime) as real / 1000.0
  }

  /** A completed entry adds non-negative time exactly when it does not
      end before it starts. */
  lemma DurationSign(e: TimeEntry)
    requires e.endTime.Some?
    ensures Duration(e) >= 0.0 <==> e.startTime <= e.endTime.value
  {
  }

  /** `(m[k] || 0)`: the value at `k`, or 0 for a missing key. */
  function Get(m: map<string, real>, k: string): real {
    if k in m then m[k] else 0.0
  }

  function Elements(ls: seq<string>): set<string> {
    set l | l in ls
  }

  // The sums below peel off the LAST entry, matching a pass that walks
  // the list from the front.

  /** Sum of all entries' durations. */
  function TotalTime(s: seq<TimeEntry>): real {
    if s == [] then 0.0 else TotalTime(s[..|s| - 1]) + Duration(s[|s| - 1])
  }

  /** Sum of the durations of the entries in category `c`. */
  function CategoryTime(s: seq<TimeEntry>, c: string): real {
    if s == [] then 0.0
    else CategoryTime(s[..|s| - 1], c) + (if s[|s| - 1].category == c then Duration(s[|s| - 1]) else 0.0)
  }

  /** `d` for every occurrence of `l` in `ls`. */
  function LabelShare(ls: seq<string>, l: string, d: real): real {
    if ls == [] then 0.0
    else LabelShare(ls[..|ls| - 1], l, d) + (if ls[|ls| - 1] == l then d else 0.0)
  }

  /** Sum, over the entries, of the entry's duration once per time it
      carries label `l`. */
  function LabelTime(s: seq<TimeEntry>, l: string): real {
    if s == [] then 0.0
    else LabelTime(s[..|s| - 1], l) + LabelShare(s[|s| - 1].labels, l, Duration(s[|s| - 1]))
  }

  /** The categories of the entries: exactly those that occur. */
  function Categories(s: seq<TimeEntry>): (cs: set<string>)
    ensures forall i :: 0 <= i < |s| ==> s[i].category in cs
    ensures forall c :: c in cs ==> exists i :: 0 <= i < |s| && s[i].category == c
  {
    if s == [] then {} else Categories(s[..|s| - 1]) + {s[|s| - 1].category}
  }

  /** The labels of the entries: exactly those that occur. */
  function Labels(s: seq<TimeEntry>): (ls: set<string>)
    ensures forall i, j :: 0 <= i < |s| && 0 <= j < |s[i].labels| ==> s[i].labels[j] in ls
    ensures forall l :: l in ls ==> exists i :: 0 <= i < |s| && l in s[i].labels
  {
    if s == [] then {} else Labels(s[..|s| - 1]) + Elements(s[|s| - 1].labels)
  }

  /** `categoryBreakdown` as it should come out: one key per category
      present, holding that category's time. */
  function CategoryBreakdown(s: seq<TimeEntry>): map<string, real> {
    map c | c in Categories(s) :: CategoryTime(s, c)
  }

  /** `labelBreakdown` as it should come out: one key per label present,
      holding that label's time. */
  function LabelBreakdown(s: seq<TimeEntry>): map<string, real> {
    map l | l in Labels(s) :: LabelTime(s, l)
  }

  /** Adds `d` to the bucket of every label of `ls`, in order, creating a
      bucket at 0 for a label not yet present: what the inner `forEach`
      does to `labelBreakdown` for one entry. */
  function Credit(m: map<string, real>, ls: seq<string>, d: real): map<string, real> {
    if ls == [] then m
    else
      var before := Credit(m, ls[..|ls| - 1], d);
      var l := ls[|ls| - 1];
      before[l := Get(before, l) + d]
  }

  // ---------------------------------------------------------------- absent keys

  lemma {:induction false} CategoryTimeAbsent(s: seq<TimeEntry>, c: string)
    requires c !in Categories(s)
    ensures CategoryTime(s, c) == 0.0
  {
    if s != [] {
      CategoryTimeAbsent(s[..|s| - 1], c);
    }
  }

  lemma {:induction false} LabelShareAbsent(ls: seq<string>, l: string, d: real)
    requires l !in ls
    ensures LabelShare(ls, l, d) == 0.0
  {
    if ls != [] {
      LabelShareAbsent(ls[..|ls| - 1], l, d);
    }
  }

  lemma {:induction false} LabelTimeAbsent(s: seq<TimeEntry>, l: string)
    requires l !in Labels(s)
    ensures LabelTime(s, l) == 0.0
  {
    if s != [] {
      LabelTimeAbsent(s[..|s| - 1], l);
      LabelShareAbsent(s[|s| - 1].labels, l, Duration(s[|s| - 1]));
    }
  }

  // ---------------------------------------------------------------- one more entry

  /** Appending an entry adds its duration to its category's bucket,
      creating the bucket at 0 when the category is new. */
  lemma CategoryBreakdownStep(p: seq<TimeEntry>, e: TimeEntry)
    ensures CategoryBreakdown(p + [e])
         == CategoryBreakdown(p)[e.category := Get(CategoryBreakdown(p), e.category) + Duration(e)]
  {
    var s := p + [e];
    assert s[..|s| - 1] == p;
    if e.category !in Categories(p) {
      CategoryTimeAbsent(p, e.category);
    }
  }

  /** What `Credit` leaves at each key. */
  lemma {:induction false} CreditAt(m: map<string, real>, ls: seq<string>, d: real)
    ensures Credit(m, ls, d).Keys == m.Keys + Elements(ls)
    ensures forall k :: k in Credit(m, ls, d) ==> Credit(m, ls, d)[k] == Get(m, k) + LabelShare(ls, k, d)
  {
    if ls != [] {
      var init := ls[..|ls| - 1];
      var l := ls[|ls| - 1];
      CreditAt(m, init, d);
      assert Elements(ls) == Elements(init) + {l} by {
        assert ls == init + [l];
      }
      var before := Credit(m, init, d);
      assert Credit(m, ls, d) == before[l := Get(before, l) + d];
      forall k | k in Credit(m, ls, d)
        ensures Credit(m, ls, d)[k] == Get(m, k) + LabelShare(ls, k, d)
      {
        assert LabelShare(ls, k, d) == LabelShare(init, k, d) + (if l == k then d else 0.0);
        if k != l {
          assert k in before;
        } else if k !in before {
          LabelShareAbsent(init, k, d);
        }
      }
    }
  }

  /** Crediting one more label of a list. */
  lemma CreditNext(m: map<string, real>, ls: seq<string>, j: nat, d: real)
    requires j < |ls|
    ensures Credit(m, ls[..j + 1], d)
         == Credit(m, ls[..j], d)[ls[j] := Get(Credit(m, ls[..j], d), ls[j]) + d]
  {
    assert ls[..j + 1][..j] == ls[..j];
  }

  /** Appending an entry credits its duration to each of its labels. */
  lemma LabelBreakdownStep(p: seq<TimeEntry>, e: TimeEntry)
    ensures LabelBreakdown(p + [e]) == Credit(LabelBreakdown(p), e.labels, Duration(e))
  {
    var s := p + [e];
    assert s[..|s| - 1] == p;
    var c := Credit(LabelBreakdown(p), e.labels, Duration(e));
    CreditAt(LabelBreakdown(p), e.labels, Duration(e));
    forall l | l in Labels(s)
      ensures LabelTime(s, l) == c[l]
    {
      if l !in Labels(p) {
        LabelTimeAbsent(p, l);
      }
    }
  }

  // ---------------------------------------------------------------- the pass, entry by entry

  /** The buckets the pass builds, one entry at a time. */
  function CategoryFold(s: seq<TimeEntry>): map<string, real> {
    if s == [] then map[]
    else
      var before := CategoryFold(s[..|s| - 1]);
      var e := s[|s| - 1];
      before[e.category := Get(before, e.category) + Duration(e)]
  }

  function LabelFold(s: seq<TimeEntry>): map<string, real> {
    if s == [] then map[] else Credit(LabelFold(s[..|s| - 1]), s[|s| - 1].labels, Duration(s[|s| - 1]))
  }

  /** The buckets built one entry at a time are the per-category times. */
  lemma {:induction false} CategoryFoldIsBreakdown(s: seq<TimeEntry>)
    ensures CategoryFold(s) == CategoryBreakdown(s)
  {
    if s == [] {
      assert CategoryBreakdown(s) == map[];
    } else {
      var p := s[..|s| - 1];
      assert s == p + [s[|s| - 1]];
      CategoryFoldIsBreakdown(p);
      CategoryBreakdownStep(p, s[|s| - 1]);
    }
  }

  /** The buckets built one entry at a time are the per-label times. */
  lemma {:induction false} LabelFoldIsBreakdown(s: seq<TimeEntry>)
    ensures LabelFold(s) == LabelBreakdown(s)
  {
    if s == [] {
      assert LabelBreakdown(s) == map[];
    } else {
      var p := s[..|s| - 1];
      assert s == p + [s[|s| - 1]];
      LabelFoldIsBreakdown(p);
      LabelBreakdownStep(p, s[|s| - 1]);
    }
  }

  // ---------------------------------------------------------------- sums of buckets

  /** The sum of all values of a map. */
  ghost function SumValues(m: map<string, real>): real
    decreases |m|
  {
    if m == map[] then 0.0
    else
      var k :| k in m;
      m[k] + SumValues(m - {k})
  }

  /** Any key can be taken out first. */
  lemma SumValuesPick(m: map<string, real>, k: string)
    requires k in m
    ensures SumValues(m) == m[k] + SumValues(m - {k})
    decreases |m|
  {
    var j :| j in m && SumValues(m) == m[j] + SumValues(m - {j});
    if j != k {
      SumValuesPick(m - {j}, k);
      SumValuesPick(m - {k}, j);
      assert m - {j} - {k} == m - {k} - {j};
    }
  }

  /** Setting one bucket changes the sum by the change in that bucket. */
  lemma SumValuesUpdate(m: map<string, real>, k: string, v: real)
    ensures SumValues(m[k := v]) == SumValues(m) - Get(m, k) + v
  {
    SumValuesPick(m[k := v], k);
    assert m[k := v] - {k} == m - {k};
    if k in m {
      SumValuesPick(m, k);
    } else {
      assert m - {k} == m;
    }
  }

  /** `d` added up `n` times. */
  function Times(d: real, n: nat): (r: real)
    ensures r == d * n as real
  {
    if n == 0 then 0.0 else Times(d, n - 1) + d
  }

  /** Crediting `d` to each of `ls` raises the sum by `d` per label. */
  lemma {:induction false} CreditSum(m: map<string, real>, ls: seq<string>, d: real)
    ensures SumValues(Credit(m, ls, d)) == SumValues(m) + Times(d, |ls|)
  {
    if ls != [] {
      var init := ls[..|ls| - 1];
      var before := Credit(m, init, d);
      var l := ls[|ls| - 1];
      assert Credit(m, ls, d) == before[l := Get(before, l) + d];
      CreditSum(m, init, d);
      SumValuesUpdate(before, l, Get(before, l) + d);
      assert Times(d, |ls|) == Times(d, |init|) + d;
    }
  }

  /** Recorded time weighted by the number of labels of each entry. */
  function WeightedTime(s: seq<TimeEntry>): real {
    if s == [] then 0.0
    else WeightedTime(s[..|s| - 1]) + Times(Duration(s[|s| - 1]), |s[|s| - 1].labels|)
  }

  /** The category buckets add up to the total time. */
  lemma CategoryBreakdownSum(s: seq<TimeEntry>)
    ensures SumValues(CategoryBreakdown(s)) == TotalTime(s)
  {
    CategoryFoldIsBreakdown(s);
    CategoryFoldSum(s);
  }

  lemma {:induction false} CategoryFoldSum(s: seq<TimeEntry>)
    ensures SumValues(CategoryFold(s)) == TotalTime(s)
  {
    if s != [] {
      var p, e := s[..|s| - 1], s[|s| - 1];
      CategoryFoldSum(p);
      SumValuesUpdate(CategoryFold(p), e.category, Get(CategoryFold(p), e.category) + Duration(e));
    }
  }

  /** Labels are not exclusive: the label buckets add up to each entry's
      duration times its number of labels, not to the total time. */
  lemma LabelBreakdownSum(s: seq<TimeEntry>)
    ensures SumValues(LabelBreakdown(s)) == WeightedTime(s)
  {
    LabelFoldIsBreakdown(s);
    LabelFoldSum(s);
  }

  lemma {:induction false} LabelFoldSum(s: seq<TimeEntry>)
    ensures SumValues(LabelFold(s)) == WeightedTime(s)
  {
    if s != [] {
      var p, e := s[..|s| - 1], s[|s| - 1];
      LabelFoldSum(p);
      CreditSum(LabelFold(p), e.labels, Duration(e));
    }
  }

  // ---------------------------------------------------------------- labels without repeats

  /** Sum of the durations of the entries that carry label `l`. */
  function CarryingTime(s: seq<TimeEntry>, l: string): real {
    if s == [] then 0.0
    else CarryingTime(s[..|s| - 1], l) + (if l in s[|s| - 1].labels then Duration(s[|s| - 1]) else 0.0)
  }

  lemma {:induction false} LabelShareOnce(ls: seq<string>, l: string, d: real)
    requires Distinct(ls)
    ensures LabelShare(ls, l, d) == if l in ls then d else 0.0
  {
    if ls != [] {
      var init := ls[..|ls| - 1];
      LabelShareOnce(init, l, d);
      assert ls == init + [ls[|ls| - 1]];
      if ls[|ls| - 1] == l {
        assert l !in init;
      }
    }
  }

  /** When no entry repeats a label (the form guarantees it), a label's
      bucket is the time of the entries carrying it. */
  lemma {:induction false} LabelTimeOfDistinctLabels(s: seq<TimeEntry>, l: string)
    requires forall i :: 0 <= i < |s| ==> Distinct(s[i].labels)
    ensures LabelTime(s, l) == CarryingTime(s, l)
  {
    if s != [] {
      LabelTimeOfDistinctLabels(s[..|s| - 1], l);
      LabelShareOnce(s[|s| - 1].labels, l, Duration(s[|s| - 1]));
    }
  }
}
