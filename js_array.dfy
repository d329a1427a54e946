/** `Array.prototype.filter` on a sequence, with the facts both of its
    uses in the tracker rely on: what is kept, in what order, and when
    nothing or exactly one element goes. */
module JsArray {

  /** `s.filter(keep)`: the elements `keep` accepts, in their order. */
  function Filter<T>(s: seq<T>, keep: T -> bool): (r: seq<T>)
    ensures forall k :: 0 <= k < |r| ==> keep(r[k])
    ensures |r| <= |s|
  {
    if s == [] then []
    else (if keep(s[0]) then [s[0]] else []) + Filter(s[1..], keep)
  }

  /** Exactly the accepted elements are kept. */
  lemma {:induction false} FilterMembers<T>(s: seq<T>, keep: T -> bool)
    ensures forall x :: x in Filter(s, keep) <==> x in s && keep(x)
  {
    if s != [] {
      FilterMembers(s[1..], keep);
      assert s == [s[0]] + s[1..];
    }
  }

  /** Filtering distributes over concatenation, so the kept elements stay
      in their original relative order. */
  lemma {:induction false} FilterAppend<T>(a: seq<T>, b: seq<T>, keep: T -> bool)
    ensures Filter(a + b, keep) == Filter(a, keep) + Filter(b, keep)
  {
    if a == [] {
      assert a + b == b;
    } else {
      assert (a + b)[0] == a[0];
      assert (a + b)[1..] == a[1..] + b;
      FilterAppend(a[1..], b, keep);
    }
  }

  /** When every element is accepted, nothing changes. */
  lemma {:induction false} FilterAllKept<T>(s: seq<T>, keep: T -> bool)
    requires forall i :: 0 <= i < |s| ==> keep(s[i])
    ensures Filter(s, keep) == s
  {
    if s != [] {
      FilterAllKept(s[1..], keep);
    }
  }

  /** A refused element between two runs that filtering keeps whole is
      the only one that goes. */
  lemma FilterDropsBetween<T>(before: seq<T>, x: T, after: seq<T>, keep: T -> bool)
    requires !keep(x)
    requires Filter(before, keep) == before && Filter(after, keep) == after
    ensures Filter(before + [x] + after, keep) == before + after
  {
    var rest := [x] + after;
    assert before + [x] + after == before + rest;
    assert Filter(rest, keep) == Filter(after, keep) by {
      assert rest[0] == x && rest[1..] == after;
    }
    FilterAppend(before, rest, keep);
  }

  /** When only the element at `i` is refused, exactly that one goes. */
  lemma FilterDropsOne<T>(s: seq<T>, i: nat, keep: T -> bool)
    requires i < |s| && !keep(s[i])
    requires forall j :: 0 <= j < |s| && j != i ==> keep(s[j])
    ensures Filter(s, keep) == s[..i] + s[i + 1..]
  {
    var before, after := s[..i], s[i + 1..];
    assert Filter(before, keep) == before by {
      forall j | 0 <= j < |before| ensures keep(before[j]) {
        assert before[j] == s[j];
      }
      FilterAllKept(before, keep);
    }
    assert Filter(after, keep) == after by {
      forall j | 0 <= j < |after| ensures keep(after[j]) {
        assert after[j] == s[i + 1 + j];
      }
      FilterAllKept(after, keep);
    }
    assert s == before + [s[i]] + after;
    FilterDropsBetween(before, s[i], after, keep);
  }

  /** No element occurs twice. */
  predicate Distinct<T(==)>(s: seq<T>) {
    forall i, j :: 0 <= i < j < |s| ==> s[i] != s[j]
  }

  /** Filtering a sequence without repeats leaves one without repeats. */
  lemma {:induction false} FilterDistinct<T>(s: seq<T>, keep: T -> bool)
    requires Distinct(s)
    ensures Distinct(Filter(s, keep))
  {
    if s != [] {
      var t := Filter(s[1..], keep);
      FilterDistinct(s[1..], keep);
      FilterMembers(s[1..], keep);
      assert s[0] !in s[1..] by {
        forall k | 0 <= k < |s[1..]| ensures s[1..][k] != s[0] {
          assert s[1..][k] == s[k + 1];
        }
      }
      if keep(s[0]) {
        var r := [s[0]] + t;
        forall i, j | 0 <= i < j < |r| ensures r[i] != r[j] {
          assert r[j] == t[j - 1];
          if i > 0 {
            assert r[i] == t[i - 1];
          }
        }
      }
    }
  }
}
