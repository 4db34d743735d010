/**
 * Bookkeeping for fire-and-forget fill threads: a handle is an id, the
 * `is_finished` flag as it reads at the time of the check, and the job the
 * thread runs. `Vec::swap_remove` and the filters used to state what a
 * check-and-join keeps live here.
 */
module Threads {

  datatype Handle<J> = Handle(id: nat, finished: bool, job: J)

  /** `[h]` if it is still running, else nothing. */
  function IfRunning<J>(h: Handle<J>): seq<Handle<J>> {
    if h.finished then [] else [h]
  }

  /** `[h]` if it has finished, else nothing. */
  function IfFinished<J>(h: Handle<J>): seq<Handle<J>> {
    if h.finished then [h] else []
  }

  /** The handles still running, in order. */
  function Running<J>(hs: seq<Handle<J>>): seq<Handle<J>> {
    if hs == [] then [] else IfRunning(hs[0]) + Running(hs[1..])
  }

  /** The finished handles, in order. */
  function Finished<J>(hs: seq<Handle<J>>): seq<Handle<J>> {
    if hs == [] then [] else IfFinished(hs[0]) + Finished(hs[1..])
  }

  function Reverse<T>(s: seq<T>): seq<T> {
    if s == [] then [] else Reverse(s[1..]) + [s[0]]
  }

  /**
   * `Vec::swap_remove(i)`: the last element takes the place of the removed
   * one. Everything before `i` stays where it was; the removed element is
   * the only one lost.
   */
  function SwapRemove<T>(s: seq<T>, i: nat): (r: seq<T>)
    requires i < |s|
    ensures |r| == |s| - 1
    ensures r[..i] == s[..i]
    ensures multiset(r[i..]) == multiset(s[i + 1..])
    ensures multiset(r) + multiset{s[i]} == multiset(s)
  {
    var last := |s| - 1;
    if i == last then
      assert s == s[..i] + [s[i]];
      s[..i]
    else
      var r := s[..i] + [s[last]] + s[i + 1..last];
      assert r[..i] == s[..i];
      assert r[i..] == [s[last]] + s[i + 1..last];
      assert s[i + 1..] == s[i + 1..last] + [s[last]];
      assert s == s[..i] + [s[i]] + s[i + 1..];
      r
  }

  lemma {:induction false} RunningAppend<J>(a: seq<Handle<J>>, b: seq<Handle<J>>)
    ensures Running(a + b) == Running(a) + Running(b)
  {
    if a == [] {
      assert a + b == b;
    } else {
      calc {
        Running(a + b);
        IfRunning(a[0]) + Running((a + b)[1..]);
        { assert (a + b)[1..] == a[1..] + b; }
        IfRunning(a[0]) + Running(a[1..] + b);
        { RunningAppend(a[1..], b); }
        IfRunning(a[0]) + (Running(a[1..]) + Running(b));
        Running(a) + Running(b);
      }
    }
  }

  lemma {:induction false} FinishedAppend<J>(a: seq<Handle<J>>, b: seq<Handle<J>>)
    ensures Finished(a + b) == Finished(a) + Finished(b)
  {
    if a == [] {
      assert a + b == b;
    } else {
      calc {
        Finished(a + b);
        IfFinished(a[0]) + Finished((a + b)[1..]);
        { assert (a + b)[1..] == a[1..] + b; }
        IfFinished(a[0]) + Finished(a[1..] + b);
        { FinishedAppend(a[1..], b); }
        IfFinished(a[0]) + (Finished(a[1..]) + Finished(b));
        Finished(a) + Finished(b);
      }
    }
  }

  /** Running and Finished split a list of handles between them. */
  lemma {:induction false} RunningFinishedPartition<J>(hs: seq<Handle<J>>)
    ensures multiset(Running(hs)) + multiset(Finished(hs)) == multiset(hs)
  {
    if hs != [] {
      RunningFinishedPartition(hs[1..]);
      assert hs == [hs[0]] + hs[1..];
    }
  }

  /** Handles none of which has finished are all kept, and none is joined. */
  lemma {:induction false} AllRunning<J>(hs: seq<Handle<J>>)
    requires forall k :: 0 <= k < |hs| ==> !hs[k].finished
    ensures Running(hs) == hs && Finished(hs) == []
  {
    if hs != [] {
      AllRunning(hs[1..]);
    }
  }

  lemma {:induction false} ReverseCons<T>(x: T, s: seq<T>)
    ensures Reverse([x] + s) == Reverse(s) + [x]
  {
    assert ([x] + s)[1..] == s;
  }

  /** Reversing a list reorders it and loses nothing. */
  lemma {:induction false} ReverseMultiset<T>(s: seq<T>)
    ensures multiset(Reverse(s)) == multiset(s)
  {
    if s != [] {
      ReverseMultiset(s[1..]);
      assert s == [s[0]] + s[1..];
    }
  }

  /**
   * A join that keeps the running handles and returns the finished ones, in
   * any order, neither loses nor duplicates a handle: the kept and the
   * joined together are the handles before the join.
   */
  lemma JoinLosesNothing<J>(before: seq<Handle<J>>, after: seq<Handle<J>>, joined: seq<Handle<J>>)
    requires multiset(after) == multiset(Running(before))
    requires joined == Reverse(Finished(before))
    ensures multiset(after) + multiset(joined) == multiset(before)
  {
    ReverseMultiset(Finished(before));
    RunningFinishedPartition(before);
  }

  /** `fi` lists, in ascending order, exactly the positions of the finished handles of `hs`. */
  predicate FinishedIndicesOf<J>(hs: seq<Handle<J>>, fi: seq<nat>) {
    && (forall k :: 0 <= k < |fi| ==> fi[k] < |hs| && hs[fi[k]].finished)
    && (forall k, l :: 0 <= k < l < |fi| ==> fi[k] < fi[l])
    && (forall p :: 0 <= p < |hs| && hs[p].finished ==> p in fi)
  }

  /** The first pass of check-and-join: the positions of the finished handles. */
  method FinishedIndices<J>(hs: seq<Handle<J>>) returns (fi: seq<nat>)
    ensures FinishedIndicesOf(hs, fi)
  {
    fi := [];
    var i := 0;
    while i < |hs|
      invariant 0 <= i <= |hs|
      invariant forall k :: 0 <= k < |fi| ==> fi[k] < i && hs[fi[k]].finished
      invariant forall k, l :: 0 <= k < l < |fi| ==> fi[k] < fi[l]
      invariant forall p :: 0 <= p < i && hs[p].finished ==> p in fi
    {
      if hs[i].finished {
        fi := fi + [i];
      }
      i := i + 1;
    }
  }

  /** Between two consecutive finished positions (or below the first, or above the last) all handles run. */
  lemma GapBelow<J>(hs: seq<Handle<J>>, fi: seq<nat>, j: nat)
    requires FinishedIndicesOf(hs, fi)
    requires j <= |fi|
    ensures forall p :: (if j == 0 then 0 else fi[j - 1] + 1) <= p < (if j < |fi| then fi[j] else |hs|) ==> !hs[p].finished
  {
  }

  lemma SplitAt<T>(s: seq<T>, k: nat)
    requires k <= |s|
    ensures s[..k] + s[k..] == s
  {
  }

  lemma MultisetSplit<T>(s: seq<T>, k: nat)
    requires k <= |s|
    ensures multiset(s) == multiset(s[..k]) + multiset(s[k..])
  {
    assert s == s[..k] + s[k..];
  }

  /** The running and finished handles of `[h] + mid + tail` when `h` has finished and `mid` is all running. */
  lemma SplitAtFinished<J>(h: Handle<J>, mid: seq<Handle<J>>, tail: seq<Handle<J>>)
    requires h.finished
    requires forall k :: 0 <= k < |mid| ==> !mid[k].finished
    ensures Running([h] + (mid + tail)) == mid + Running(tail)
    ensures Finished([h] + (mid + tail)) == [h] + Finished(tail)
  {
    Single(h);
    AllRunning(mid);
    calc {
      Running([h] + (mid + tail));
      { RunningAppend([h], mid + tail); }
      Running([h]) + Running(mid + tail);
      { RunningAppend(mid, tail); EmptyLeft(Running([h]), mid + Running(tail)); }
      mid + Running(tail);
    }
    calc {
      Finished([h] + (mid + tail));
      { FinishedAppend([h], mid + tail); }
      Finished([h]) + Finished(mid + tail);
      { FinishedAppend(mid, tail); EmptyLeft(Finished(mid), Finished(tail)); }
      [h] + Finished(tail);
    }
  }

  lemma EmptyLeft<T>(e: seq<T>, s: seq<T>)
    requires e == []
    ensures e + s == s
  {
  }

  lemma Single<J>(h: Handle<J>)
    ensures Running([h]) == IfRunning(h) && Finished([h]) == IfFinished(h)
  {
    assert [h][1..] == [];
  }

  /**
   * One step of the removal loop of check-and-join. Below `bound` the
   * current list still agrees with the snapshot `hs`; at and above it, it
   * holds (as a multiset) exactly the running handles of `hs[bound..]`.
   * Removing the next finished index `idx < bound`, with no finished handle
   * strictly between the two, keeps that shape with `idx` as the new bound.
   */
  lemma JoinStep<J>(hs: seq<Handle<J>>, cur: seq<Handle<J>>, idx: nat, bound: nat)
    requires idx < bound <= |hs| && bound <= |cur|
    requires cur[..bound] == hs[..bound]
    requires hs[idx].finished
    requires forall p :: idx < p < bound ==> !hs[p].finished
    requires multiset(cur[bound..]) == multiset(Running(hs[bound..]))
    ensures idx < |cur| && cur[idx] == hs[idx]
    ensures var next := SwapRemove(cur, idx);
      && idx <= |next|
      && next[..idx] == hs[..idx]
      && multiset(next[idx..]) == multiset(Running(hs[idx..]))
    ensures Finished(hs[idx..]) == [hs[idx]] + Finished(hs[bound..])
  {
    assert cur[idx] == hs[idx] by {
      assert cur[idx] == cur[..bound][idx];
    }
    var next := SwapRemove(cur, idx);
    assert next[..idx] == hs[..idx] by {
      assert next[..idx] == cur[..bound][..idx];
      assert hs[..idx] == hs[..bound][..idx];
    }
    assert multiset(next[idx..]) == multiset(Running(hs[idx..])) by {
      JoinSplit(hs, idx, bound);
      assert cur[idx + 1..bound] == hs[idx + 1..bound] by {
        assert cur[idx + 1..bound] == cur[..bound][idx + 1..];
      }
      JoinMultiset(cur, idx, bound, hs[idx + 1..bound], Running(hs[bound..]));
    }
    JoinSplit(hs, idx, bound);
  }

  /** Splitting the snapshot at a finished `idx` followed by running handles up to `bound`. */
  lemma JoinSplit<J>(hs: seq<Handle<J>>, idx: nat, bound: nat)
    requires idx < bound <= |hs|
    requires hs[idx].finished
    requires forall p :: idx < p < bound ==> !hs[p].finished
    ensures Running(hs[idx..]) == hs[idx + 1..bound] + Running(hs[bound..])
    ensures Finished(hs[idx..]) == [hs[idx]] + Finished(hs[bound..])
  {
    var mid := hs[idx + 1..bound];
    var tail := hs[bound..];
    assert hs[idx..] == [hs[idx]] + (mid + tail);
    SplitAtFinished(hs[idx], mid, tail);
  }

  /** Swap-removing `idx` leaves, from `idx` on, the elements after it: `mid` up to `bound`, then the rest. */
  lemma JoinMultiset<T>(cur: seq<T>, idx: nat, bound: nat, mid: seq<T>, rest: seq<T>)
    requires idx < bound <= |cur|
    requires cur[idx + 1..bound] == mid
    requires multiset(cur[bound..]) == multiset(rest)
    ensures idx <= |SwapRemove(cur, idx)|
    ensures multiset(SwapRemove(cur, idx)[idx..]) == multiset(mid + rest)
  {
    var after := cur[idx + 1..];
    var k := bound - idx - 1;
    SliceOfSlice(cur, idx + 1, k);
    calc {
      multiset(SwapRemove(cur, idx)[idx..]);
      multiset(after);
      { MultisetSplit(after, k); }
      multiset(after[..k]) + multiset(after[k..]);
      multiset(mid) + multiset(rest);
      multiset(mid + rest);
    }
  }

  lemma SliceOfSlice<T>(s: seq<T>, a: nat, k: nat)
    requires a + k <= |s|
    ensures s[a..][..k] == s[a..a + k]
    ensures s[a..][k..] == s[a + k..]
  {
  }

  /**
   * The end of the removal loop: no handle below `bound` has finished, so
   * the list holds exactly the running handles of the snapshot.
   */
  lemma JoinDone<J>(hs: seq<Handle<J>>, cur: seq<Handle<J>>, bound: nat)
    requires bound <= |hs| && bound <= |cur|
    requires cur[..bound] == hs[..bound]
    requires forall p :: 0 <= p < bound ==> !hs[p].finished
    requires multiset(cur[bound..]) == multiset(Running(hs[bound..]))
    ensures multiset(cur) == multiset(Running(hs))
  {
    RunningPrefix(hs, bound);
    MultisetJoin(cur, bound, hs[..bound], Running(hs[bound..]));
  }

  /** A prefix with no finished handle is kept whole. */
  lemma RunningPrefix<J>(hs: seq<Handle<J>>, bound: nat)
    requires bound <= |hs|
    requires forall p :: 0 <= p < bound ==> !hs[p].finished
    ensures Running(hs) == hs[..bound] + Running(hs[bound..])
  {
    var head, tail := hs[..bound], hs[bound..];
    AllRunning(head);
    calc {
      Running(hs);
      { SplitAt(hs, bound); }
      Running(head + tail);
      { RunningAppend(head, tail); }
      Running(head) + Running(tail);
      head + Running(tail);
    }
  }

  lemma MultisetJoin<T>(cur: seq<T>, bound: nat, head: seq<T>, rest: seq<T>)
    requires bound <= |cur|
    requires cur[..bound] == head
    requires multiset(cur[bound..]) == multiset(rest)
    ensures multiset(cur) == multiset(head + rest)
  {
    MultisetSplit(cur, bound);
  }

  /** ... and every finished handle of the snapshot lies at or above `bound`. */
  lemma JoinedAll<J>(hs: seq<Handle<J>>, bound: nat)
    requires bound <= |hs|
    requires forall p :: 0 <= p < bound ==> !hs[p].finished
    ensures Finished(hs[bound..]) == Finished(hs)
  {
    var head, tail := hs[..bound], hs[bound..];
    AllRunning(head);
    calc {
      Finished(hs);
      { SplitAt(hs, bound); }
      Finished(head + tail);
      { FinishedAppend(head, tail); }
      Finished(head) + Finished(tail);
      { EmptyLeft(Finished(head), Finished(tail)); }
      Finished(tail);
    }
  }
}
