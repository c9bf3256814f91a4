/** `Array.prototype.filter` and the page's rule for which locations it shows
    (`applyFilter`). `filter` keeps, in their original order, exactly the
    elements its callback accepts, and never changes the array it is called on. */
module Filters {
  import opened Wrappers
  import opened Schedules

  // ---------------------------------------------------------------------------
  // filter

  /** `s.filter(keep)`: the callback is visited from the first element on. */
  function Filter<T>(s: seq<T>, keep: T -> bool): seq<T>
    decreases |s|
  {
    if s == [] then []
    else (if keep(s[0]) then [s[0]] else []) + Filter(s[1..], keep)
  }

  /** `idx` places every element of `r` at a position of `s` holding the same
      value, with the positions strictly increasing. */
  predicate IsEmbedding<T(==)>(idx: seq<nat>, r: seq<T>, s: seq<T>)
  {
    |idx| == |r| &&
    (forall k :: 0 <= k < |idx| ==> idx[k] < |s| && r[k] == s[idx[k]]) &&
    (forall k, l :: 0 <= k < l < |idx| ==> idx[k] < idx[l])
  }

  /** `r` is `s` with some elements dropped and the rest in their order. */
  ghost predicate IsSubsequence<T>(r: seq<T>, s: seq<T>)
  {
    exists idx :: IsEmbedding(idx, r, s)
  }

  /** Every sequence is a subsequence of itself. */
  lemma SubsequenceOfItself<T>(s: seq<T>)
    ensures IsSubsequence(s, s)
  {
    var idx: seq<nat> := seq(|s|, k => k);
    assert IsEmbedding(idx, s, s);
  }

  /** The positions `filter` keeps, as a witness that its result is a
      subsequence of its input. */
  lemma {:induction false} FilterEmbedding<T>(s: seq<T>, keep: T -> bool) returns (idx: seq<nat>)
    ensures IsEmbedding(idx, Filter(s, keep), s)
    decreases |s|
  {
    if s == [] {
      idx := [];
    } else {
      var tail := FilterEmbedding(s[1..], keep);
      var rest := Filter(s[1..], keep);
      var shifted := ShiftedEmbedding(tail, rest, s);
      if keep(s[0]) {
        idx := [0] + shifted;
        ConsEmbedding(shifted, rest, s);
      } else {
        idx := shifted;
      }
    }
  }

  /** An embedding into the tail of `s`, moved one position on, embeds into `s`
      and avoids its first position. */
  lemma ShiftedEmbedding<T>(tail: seq<nat>, rest: seq<T>, s: seq<T>) returns (shifted: seq<nat>)
    requires s != [] && IsEmbedding(tail, rest, s[1..])
    ensures IsEmbedding(shifted, rest, s)
    ensures forall k :: 0 <= k < |shifted| ==> 0 < shifted[k]
  {
    shifted := seq(|tail|, k requires 0 <= k < |tail| => tail[k] + 1);
    forall k | 0 <= k < |shifted| ensures shifted[k] < |s| && rest[k] == s[shifted[k]] {
      assert s[1..][tail[k]] == s[tail[k] + 1];
    }
  }

  /** Keeping the first element puts position 0 in front of the embedding. */
  lemma ConsEmbedding<T>(idx: seq<nat>, rest: seq<T>, s: seq<T>)
    requires s != [] && IsEmbedding(idx, rest, s)
    requires forall k :: 0 <= k < |idx| ==> 0 < idx[k]
    ensures IsEmbedding([0] + idx, [s[0]] + rest, s)
  {
    var full: seq<nat> := [0] + idx;
    var r := [s[0]] + rest;
    forall k | 1 <= k < |full| ensures full[k] == idx[k - 1] && r[k] == rest[k - 1] {}
  }

  /** `filter` returns a subsequence of its input. */
  lemma FilterIsSubsequence<T>(s: seq<T>, keep: T -> bool)
    ensures IsSubsequence(Filter(s, keep), s)
  {
    var idx := FilterEmbedding(s, keep);
  }

  /** An element is in the result exactly when it is in the input and the
      callback accepts it. */
  lemma {:induction false} FilterMembership<T>(s: seq<T>, keep: T -> bool, x: T)
    ensures x in Filter(s, keep) <==> x in s && keep(x)
    decreases |s|
  {
    if s != [] {
      FilterMembership(s[1..], keep, x);
      assert s == [s[0]] + s[1..];
    }
  }

  /** Each accepted value appears as often as in the input, each rejected
      value not at all: the result is the input minus the rejected elements. */
  lemma {:induction false} FilterMultiplicity<T>(s: seq<T>, keep: T -> bool, x: T)
    ensures multiset(Filter(s, keep))[x] == if keep(x) then multiset(s)[x] else 0
    decreases |s|
  {
    if s != [] {
      FilterMultiplicity(s[1..], keep, x);
      assert s == [s[0]] + s[1..];
      assert multiset(s) == multiset{s[0]} + multiset(s[1..]);
      var head: seq<T> := if keep(s[0]) then [s[0]] else [];
      assert multiset(Filter(s, keep)) == multiset(head) + multiset(Filter(s[1..], keep));
    }
  }

  /** `filter` returns its input unchanged exactly when the callback accepts
      every element. */
  lemma {:induction false} FilterKeepsAll<T>(s: seq<T>, keep: T -> bool)
    ensures Filter(s, keep) == s <==> forall i :: 0 <= i < |s| ==> keep(s[i])
    decreases |s|
  {
    if s != [] {
      FilterKeepsAll(s[1..], keep);
      FilterMembership(s, keep, s[0]);
      if Filter(s, keep) == s {
        forall i | 0 <= i < |s| ensures keep(s[i]) {
          FilterMembership(s, keep, s[i]);
        }
      }
      if forall i :: 0 <= i < |s| ==> keep(s[i]) {
        assert forall i :: 0 <= i < |s[1..]| ==> keep(s[1..][i]) by {
          forall i | 0 <= i < |s[1..]| ensures keep(s[1..][i]) { assert s[1..][i] == s[i + 1]; }
        }
        assert s == [s[0]] + s[1..];
      }
    }
  }

  /** `filter` returns nothing when the callback rejects every element. */
  lemma FilterKeepsNone<T>(s: seq<T>, keep: T -> bool)
    requires forall i :: 0 <= i < |s| ==> !keep(s[i])
    ensures Filter(s, keep) == []
  {
    var r := Filter(s, keep);
    if r != [] {
      FilterMembership(s, keep, r[0]);
      assert false;
    }
  }

  /** Two callbacks that agree on every value filter alike. */
  lemma {:induction false} FilterCongruent<T>(s: seq<T>, p: T -> bool, q: T -> bool)
    requires forall x :: p(x) == q(x)
    ensures Filter(s, p) == Filter(s, q)
    decreases |s|
  {
    if s != [] {
      FilterCongruent(s[1..], p, q);
    }
  }

  /** Filtering twice is filtering once by both callbacks. */
  lemma {:induction false} FilterFuse<T>(s: seq<T>, p: T -> bool, q: T -> bool, both: T -> bool)
    requires forall x :: both(x) == (p(x) && q(x))
    ensures Filter(Filter(s, p), q) == Filter(s, both)
    decreases |s|
  {
    if s != [] {
      FilterFuse(s[1..], p, q, both);
      var rest := Filter(s[1..], p);
      if p(s[0]) {
        var r := [s[0]] + rest;
        assert Filter(s, p) == r;
        assert r[0] == s[0] && r[1..] == rest;
      } else {
        assert Filter(s, p) == rest;
      }
    }
  }

  // ---------------------------------------------------------------------------
  // What the page shows

  /** `location.opened` is truthy: present and true. */
  predicate IsOpened(loc: Location)
  {
    loc.isOpened == Some(true)
  }

  /** `if (selectedPeriod)`: `null` and the empty string are falsy. */
  predicate PeriodSelected(selected: Option<string>)
  {
    selected.Some? && selected.value != ""
  }

  /** The callback of the period stage. */
  function InPeriod(value: string): Location -> bool
  {
    loc => IsOpenInPeriod(loc, value)
  }

  /** Whether one location survives both stages of `applyFilter`. */
  predicate Admits(selected: Option<string>, showClosed: bool, loc: Location)
  {
    (PeriodSelected(selected) ==> IsOpenInPeriod(loc, selected.value)) &&
    (showClosed || IsOpened(loc))
  }

  /** The locations shown for a selected period and toggle: every admitted
      location, in the order of `all`. */
  function VisibleFor(all: seq<Location>, selected: Option<string>, showClosed: bool): seq<Location>
  {
    Filter(all, loc => Admits(selected, showClosed, loc))
  }

  /** The period stage followed by the closed-units stage, as `applyFilter`
      performs them, shows exactly the admitted locations. */
  lemma TwoStages(all: seq<Location>, selected: Option<string>, showClosed: bool)
    ensures
      var stage1 := if PeriodSelected(selected) then Filter(all, InPeriod(selected.value)) else all;
      var stage2 := if showClosed then stage1 else Filter(stage1, IsOpened);
      stage2 == VisibleFor(all, selected, showClosed)
  {
    var admits := loc => Admits(selected, showClosed, loc);
    if PeriodSelected(selected) {
      var inPeriod := InPeriod(selected.value);
      if showClosed {
        FilterCongruent(all, inPeriod, admits);
      } else {
        FilterFuse(all, inPeriod, IsOpened, admits);
      }
    } else {
      if showClosed {
        FilterKeepsAll(all, admits);
      } else {
        FilterCongruent(all, IsOpened, admits);
      }
    }
  }

  /** What is shown is drawn, in order, from the loaded list. */
  lemma VisibleIsSubsequence(all: seq<Location>, selected: Option<string>, showClosed: bool)
    ensures IsSubsequence(VisibleFor(all, selected, showClosed), all)
  {
    FilterIsSubsequence(all, loc => Admits(selected, showClosed, loc));
  }

  /** A location is shown exactly when it is loaded and admitted. */
  lemma VisibleMembership(all: seq<Location>, selected: Option<string>, showClosed: bool, loc: Location)
    ensures loc in VisibleFor(all, selected, showClosed) <==> loc in all && Admits(selected, showClosed, loc)
  {
    FilterMembership(all, loc => Admits(selected, showClosed, loc), loc);
  }

  /** With the toggle off only opened locations are shown. */
  lemma HidingClosedShowsOnlyOpened(all: seq<Location>, selected: Option<string>)
    ensures forall loc :: loc in VisibleFor(all, selected, false) ==> IsOpened(loc)
  {
    forall loc | loc in VisibleFor(all, selected, false) ensures IsOpened(loc) {
      VisibleMembership(all, selected, false, loc);
    }
  }

  /** With no period selected and the toggle on, every loaded location is
      shown, in its order. */
  lemma NoFilterShowsAll(all: seq<Location>, selected: Option<string>)
    requires !PeriodSelected(selected)
    ensures VisibleFor(all, selected, true) == all
  {
    FilterKeepsAll(all, loc => Admits(selected, true, loc));
  }

  /** A selected value outside the period catalogue shows nothing. */
  lemma UnknownPeriodShowsNothing(all: seq<Location>, value: string, showClosed: bool)
    requires value != "" && value != "manha" && value != "tarde" && value != "noite"
    ensures VisibleFor(all, Some(value), showClosed) == []
  {
    forall i | 0 <= i < |all| ensures !Admits(Some(value), showClosed, all[i]) {
      UnknownPeriodNeverOpen(all[i], value);
    }
    FilterKeepsNone(all, loc => Admits(Some(value), showClosed, loc));
  }

  /** Turning the toggle off only removes closed units from what is shown. */
  lemma HidingClosedNarrows(all: seq<Location>, selected: Option<string>)
    ensures VisibleFor(all, selected, false) == Filter(VisibleFor(all, selected, true), IsOpened)
  {
    FilterFuse(all, loc => Admits(selected, true, loc), IsOpened, loc => Admits(selected, false, loc));
  }
}
