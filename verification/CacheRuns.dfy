/**
 The cache over whole runs: its list is ordered by last use, so an eviction never drops a document
 while it keeps one that was used longer ago.
 */
module CacheRuns {
  import opened Bytes
  import opened Documents
  import opened Cache

  /** The entries after each use of a cache that starts empty; the budget may change at any time. */
  ghost predicate IsRun(uses: seq<Use>, budgets: seq<nat>, states: seq<seq<CacheEntry>>) {
    && |states| == |uses| + 1 && |budgets| == |uses| && states[0] == []
    && forall n :: 0 <= n < |uses| ==> Follows(states[n], uses[n], budgets[n], states[n + 1])
  }

  /** A document is used when it is put, and when it is found at the offset it is asked for. */
  predicate Touches(r: seq<CacheEntry>, use: Use, id: Str) {
    match use
    case Got(other, offset) => other == id && exists e :: e in r && e.id == id && e.offset == offset
    case Put(e) => e.id == id
    case Forgot(_) => false
    case Resized => false
  }

  ghost predicate LastUsed(uses: seq<Use>, states: seq<seq<CacheEntry>>, id: Str, n: nat, t: nat)
    requires |states| == |uses| + 1 && n <= |uses|
  {
    && t < n && Touches(states[t], uses[t], id)
    && forall u :: t < u < n ==> !Touches(states[u], uses[u], id)
  }

  /** These are the times of the last uses, least recent first. */
  ghost predicate UsedAt(uses: seq<Use>, states: seq<seq<CacheEntry>>, n: nat, times: seq<nat>)
    requires |states| == |uses| + 1 && n <= |uses|
  {
    && |times| == |states[n]|
    && (forall i, j :: 0 <= i < j < |times| ==> times[i] < times[j])
    && forall i :: 0 <= i < |times| ==> LastUsed(uses, states, states[n][i].id, n, times[i])
  }

  lemma LastUsedOnce(uses: seq<Use>, states: seq<seq<CacheEntry>>, id: Str, n: nat, t: nat, u: nat)
    requires |states| == |uses| + 1 && n <= |uses|
    requires LastUsed(uses, states, id, n, t) && LastUsed(uses, states, id, n, u)
    ensures t == u
  {
  }

  /** What is not touched keeps its time. */
  lemma LastUsedStays(uses: seq<Use>, states: seq<seq<CacheEntry>>, id: Str, n: nat, t: nat)
    requires |states| == |uses| + 1 && n < |uses| && LastUsed(uses, states, id, n, t)
    ensures !Touches(states[n], uses[n], id) ==> LastUsed(uses, states, id, n + 1, t)
  {
    hide Touches;
  }

  lemma LastUsedNow(uses: seq<Use>, states: seq<seq<CacheEntry>>, id: Str, n: nat)
    requires |states| == |uses| + 1 && n < |uses| && Touches(states[n], uses[n], id)
    ensures LastUsed(uses, states, id, n + 1, n)
  {
    hide Touches;
  }

  /** Entries left in their order. */
  ghost predicate Left(before: seq<CacheEntry>, kept: seq<nat>, left: seq<CacheEntry>) {
    && |kept| == |left|
    && (forall i, j :: 0 <= i < j < |kept| ==> kept[i] < kept[j])
    && forall i :: 0 <= i < |kept| ==> kept[i] < |before| && left[i] == before[kept[i]]
  }

  /** Untouched entries in their order, then perhaps the one just used. */
  ghost predicate Thinned(before: seq<CacheEntry>, use: Use, kept: seq<nat>, after: seq<CacheEntry>) {
    && |kept| <= |after| <= |kept| + 1 && Left(before, kept, after[..|kept|])
    && (|after| > |kept| ==> Touches(before, use, after[|kept|].id))
    && (forall i :: 0 <= i < |kept| ==> !Touches(before, use, after[i].id))
    && forall i: nat :: i < |before| && i !in kept ==> Gone(before, use, kept, after, i)
  }

  /** What is not left there was moved, replaced, removed by name, or stood before all that are left. */
  ghost predicate Gone(before: seq<CacheEntry>, use: Use, kept: seq<nat>, after: seq<CacheEntry>, i: nat)
    requires i < |before|
  {
    if Touches(before, use, before[i].id) then before[i] in after || use.Put?
    else use == Forgot(before[i].id) || forall j :: 0 <= j < |kept| ==> i < kept[j]
  }

  function Interval(a: nat, b: nat): (r: seq<nat>)
    requires a <= b
    ensures |r| == b - a && forall i :: 0 <= i < |r| ==> r[i] == a + i
  {
    seq(b - a, i requires 0 <= i < b - a => a + i)
  }

  lemma IntervalHas(a: nat, b: nat)
    requires a <= b
    ensures forall i: nat :: i in Interval(a, b) <==> a <= i < b
  {
    forall i: nat | a <= i < b
      ensures i in Interval(a, b)
    {
      assert Interval(a, b)[i - a] == i;
    }
  }

  lemma AllLeft(before: seq<CacheEntry>)
    ensures Left(before, Interval(0, |before|), before) && forall i: nat :: i in Interval(0, |before|) <==> i < |before|
  {
    IntervalHas(0, |before|);
  }

  lemma AllButOne(before: seq<CacheEntry>, k: nat) returns (kept: seq<nat>)
    requires k < |before|
    ensures Left(before, kept, before[..k] + before[k + 1..])
    ensures forall i: nat :: i in kept <==> i < |before| && i != k
  {
    kept := Interval(0, k) + Interval(k + 1, |before|);
    IntervalHas(0, k);
    IntervalHas(k + 1, |before|);
  }

  lemma LeftSuffix(before: seq<CacheEntry>, kept: seq<nat>, left: seq<CacheEntry>, k: nat)
    requires Left(before, kept, left) && k <= |left|
    ensures Left(before, kept[k..], left[k..])
    ensures forall i: nat :: i in kept && i !in kept[k..] ==> forall j :: 0 <= j < |kept| - k ==> i < kept[k..][j]
  {
    forall i: nat, j | i in kept && i !in kept[k..] && 0 <= j < |kept| - k
      ensures i < kept[k..][j]
    {
      var m :| 0 <= m < |kept| && kept[m] == i;
      assert forall n :: k <= n < |kept| ==> kept[n] == kept[k..][n - k];
    }
  }

  /** An entry taken out of the list. */
  lemma WithoutKeeps(before: seq<CacheEntry>, id: Str, after: seq<CacheEntry>) returns (kept: seq<nat>)
    requires Distinct(before) && Without(before, id, after)
    ensures Left(before, kept, after) && forall e :: e in after ==> e.id != id
    ensures forall i: nat :: i < |before| && i !in kept ==> before[i].id == id
  {
    hide Left;
    if k :| 0 <= k < |before| && before[k].id == id && after == before[..k] + before[k + 1..] {
      kept := AllButOne(before, k);
    } else {
      kept := Interval(0, |before|);
      AllLeft(before);
    }
  }

  lemma RefreshedThins(before: seq<CacheEntry>, e: CacheEntry, after: seq<CacheEntry>) returns (kept: seq<nat>)
    requires Distinct(before) && Refreshed(before, e, after)
    ensures Thinned(before, Got(e.id, e.offset), kept, after)
  {
    hide Left;
    var k :| 0 <= k < |before| && before[k] == e && after == before[..k] + before[k + 1..] + [e];
    kept := AllButOne(before, k);
    LeftCounts(before, kept, before[..k] + before[k + 1..]);
    assert after[..|kept|] == before[..k] + before[k + 1..] && after[|kept|] == e;
  }

  lemma LeftCounts(before: seq<CacheEntry>, kept: seq<nat>, left: seq<CacheEntry>)
    requires Left(before, kept, left)
    ensures |kept| == |left|
  {
  }

  lemma UntouchedThins(before: seq<CacheEntry>, use: Use, k: nat) returns (kept: seq<nat>)
    requires k <= |before| && forall e :: e in before ==> !Touches(before, use, e.id)
    ensures Thinned(before, use, kept, before[k..])
  {
    hide Touches, Left;
    AllLeft(before);
    LeftSuffix(before, Interval(0, |before|), before, k);
    kept := Interval(0, |before|)[k..];
    assert before[k..][..|kept|] == before[k..];
  }

  lemma PutLast(before: seq<CacheEntry>, e: CacheEntry, kept: seq<nat>, left: seq<CacheEntry>)
    requires Left(before, kept, left) && forall d :: d in left ==> d.id != e.id
    requires forall i: nat :: i < |before| && i !in kept ==> before[i].id == e.id || forall j :: 0 <= j < |kept| ==> i < kept[j]
    ensures Thinned(before, Put(e), kept, left) && Thinned(before, Put(e), kept, left + [e])
  {
    hide Left;
    LeftCounts(before, kept, left);
    assert left[..|kept|] == left == (left + [e])[..|kept|];
    assert forall i :: 0 <= i < |kept| ==> left[i] in left;
  }

  lemma PutThins(before: seq<CacheEntry>, e: CacheEntry, maxBytes: nat, rest: seq<CacheEntry>, after: seq<CacheEntry>) returns (kept: seq<nat>)
    requires Distinct(before) && Without(before, e.id, rest) && PutBehind(rest, e, maxBytes, after)
    ensures Thinned(before, Put(e), kept, after)
  {
    hide Without, Left, Distinct, Total, Thinned;
    kept := WithoutKeeps(before, e.id, rest);
    if e.bytes <= maxBytes {
      var k :| Evicts(rest, e.bytes, maxBytes, k) && after == rest[k..] + [e];
      LeftCounts(before, kept, rest);
      LeftSuffix(before, kept, rest, k);
      kept := kept[k..];
      PutLast(before, e, kept, rest[k..]);
    } else {
      PutLast(before, e, kept, rest);
    }
  }

  lemma ForgottenThins(before: seq<CacheEntry>, id: Str, after: seq<CacheEntry>) returns (kept: seq<nat>)
    requires Distinct(before) && Without(before, id, after)
    ensures Thinned(before, Forgot(id), kept, after)
  {
    hide Left;
    kept := WithoutKeeps(before, id, after);
    LeftCounts(before, kept, after);
    assert after[..|kept|] == after;
  }

  lemma FollowsThins(before: seq<CacheEntry>, use: Use, maxBytes: nat, after: seq<CacheEntry>) returns (kept: seq<nat>)
    requires Distinct(before) && Follows(before, use, maxBytes, after)
    ensures Thinned(before, use, kept, after)
  {
    hide Thinned, PutBehind, Without, Distinct, Refreshed, Total;
    match use
    case Got(id, offset) =>
      if e :| e in before && e.id == id && e.offset == offset && Refreshed(before, e, after) {
        kept := RefreshedThins(before, e, after);
      } else {
        kept := UntouchedThins(before, use, 0);
        assert before[0..] == before;
      }
    case Put(e) =>
      var rest :| Without(before, e.id, rest) && PutBehind(rest, e, maxBytes, after);
      kept := PutThins(before, e, maxBytes, rest, after);
    case Forgot(id) => kept := ForgottenThins(before, id, after);
    case Resized =>
      var k :| Evicts(before, 0, maxBytes, k) && after == before[k..];
      kept := UntouchedThins(before, use, k);
  }

  /** Every entry is there once, and the list is ordered by last use, least recent first. */
  lemma {:induction false} OrderedByUse(uses: seq<Use>, budgets: seq<nat>, states: seq<seq<CacheEntry>>, n: nat) returns (times: seq<nat>)
    requires IsRun(uses, budgets, states) && n <= |uses|
    ensures Distinct(states[n]) && UsedAt(uses, states, n, times)
  {
    hide Follows, LastUsed, Touches, Thinned;
    if n == 0 {
      times := [];
    } else {
      var before := OrderedByUse(uses, budgets, states, n - 1);
      var kept := FollowsThins(states[n - 1], uses[n - 1], budgets[n - 1], states[n]);
      times := TimesAfter(uses, states, n - 1, before, kept);
    }
  }

  lemma TimesAfter(uses: seq<Use>, states: seq<seq<CacheEntry>>, n: nat, before: seq<nat>, kept: seq<nat>) returns (times: seq<nat>)
    requires |states| == |uses| + 1 && n < |uses| && Distinct(states[n]) && UsedAt(uses, states, n, before)
    requires Thinned(states[n], uses[n], kept, states[n + 1])
    ensures Distinct(states[n + 1]) && UsedAt(uses, states, n + 1, times)
  {
    hide Touches, LastUsed, Gone;
    times := seq(|kept|, i requires 0 <= i < |kept| => before[kept[i]]);
    var left := states[n + 1][..|kept|];
    forall i | 0 <= i < |kept|
      ensures states[n + 1][i] == states[n][kept[i]]
      ensures LastUsed(uses, states, states[n + 1][i].id, n + 1, times[i]) && times[i] < n
    {
      assert left[i] == states[n + 1][i];
      LastUsedStays(uses, states, states[n][kept[i]].id, n, before[kept[i]]);
      LastUsedBefore(uses, states, states[n][kept[i]].id, n, before[kept[i]]);
    }
    if |states[n + 1]| > |kept| {
      LastUsedNow(uses, states, states[n + 1][|kept|].id, n);
      times := times + [n];
    }
  }

  lemma LastUsedBefore(uses: seq<Use>, states: seq<seq<CacheEntry>>, id: Str, n: nat, t: nat)
    requires |states| == |uses| + 1 && n <= |uses| && LastUsed(uses, states, id, n, t)
    ensures t < n
  {
  }

  predicate Has(r: seq<CacheEntry>, id: Str) {
    exists e :: e in r && e.id == id
  }

  /**
   A document is evicted when it was in the cache before a use and is not afterwards, though it was not removed by name.
   It was last used before any document that is in the cache afterwards.
   */
  lemma LeastRecentGoes(uses: seq<Use>, budgets: seq<nat>, states: seq<seq<CacheEntry>>, n: nat, evicted: Str, kept: Str, t: nat, u: nat)
    requires IsRun(uses, budgets, states) && n < |uses|
    requires Has(states[n], evicted) && !Has(states[n + 1], evicted) && uses[n] != Forgot(evicted) && !(uses[n].Put? && uses[n].entry.id == evicted)
    requires Has(states[n + 1], kept)
    requires LastUsed(uses, states, evicted, n + 1, t) && LastUsed(uses, states, kept, n + 1, u)
    ensures t < u
  {
    hide LastUsed, Follows, Touches, Gone;
    var times := OrderedByUse(uses, budgets, states, n);
    var left := FollowsThins(states[n], uses[n], budgets[n], states[n + 1]);
    var i: nat :| i < |states[n]| && states[n][i].id == evicted;
    var p: nat :| p < |states[n + 1]| && states[n + 1][p].id == kept;
    EvictedBefore(states[n], uses[n], left, states[n + 1], i);
    LastUsedStays(uses, states, evicted, n, times[i]);
    LastUsedOnce(uses, states, evicted, n + 1, t, times[i]);
    if p < |left| {
      assert states[n + 1][..|left|][p] == states[n + 1][p];
      LastUsedStays(uses, states, kept, n, times[left[p]]);
      LastUsedOnce(uses, states, kept, n + 1, u, times[left[p]]);
    } else {
      LastUsedNow(uses, states, kept, n);
      LastUsedOnce(uses, states, kept, n + 1, u, n);
      LastUsedBefore(uses, states, evicted, n, times[i]);
    }
  }

  lemma EvictedBefore(before: seq<CacheEntry>, use: Use, kept: seq<nat>, after: seq<CacheEntry>, i: nat)
    requires Thinned(before, use, kept, after) && i < |before| && !Has(after, before[i].id)
    requires use != Forgot(before[i].id) && !(use.Put? && use.entry.id == before[i].id)
    ensures !Touches(before, use, before[i].id) && forall j :: 0 <= j < |kept| ==> i < kept[j]
  {
    forall j | 0 <= j < |kept|
      ensures Has(after, before[kept[j]].id)
    {
      assert after[..|kept|][j] in after;
    }
    assert Gone(before, use, kept, after, i);
  }
}
