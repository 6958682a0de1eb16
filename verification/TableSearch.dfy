/**
 The search for the table size: `write_out` tries every size from a start value
 up to the best total space found so far, and keeps the cheapest.
 */
module TableSearch {
  import opened MessageIndex

  /** `size` needs the least space of all sizes from `start` on, tested or not,
      and is the largest size that needs so little. */
  ghost predicate Optimal(es: seq<Entry>, start: nat, size: nat)
    requires start > 0
  {
    && size >= start
    && forall s :: s >= start ==> Total(es, size) <= Total(es, s) && (Total(es, s) == Total(es, size) ==> s <= size)
  }

  /** `size` is the best of the sizes in [start..end). */
  ghost predicate BestSoFar(es: seq<Entry>, start: nat, end: nat, size: nat)
    requires start > 0
  {
    && start <= size < end
    && forall s :: start <= s < end ==>
       Total(es, size) <= Total(es, s) && (Total(es, s) == Total(es, size) ==> s <= size)
  }

  /** The optimum in terms of the messages: no size from `start` on, with the depth that its
      rests need, takes less space, and none takes as little that is larger. */
  lemma OptimumBeats(es: seq<Entry>, start: nat, size: nat, depth: nat, s: nat, d: nat)
    requires 0 < start <= s && Optimal(es, start, size) && size > 0 && MostAlike(es, size, depth) && MostAlike(es, s, d)
    ensures size * depth <= s * d && (size * depth == s * d ==> s <= size)
  {
    hide Depth, Alike;
    OneDepth(es, size, depth);
    OneDepth(es, s, d);
    assert Total(es, size) <= Total(es, s);
  }

  lemma OneDepth(es: seq<Entry>, size: nat, depth: nat)
    requires size > 0 && MostAlike(es, size, depth)
    ensures depth == Depth(es, size)
  {
    hide Alike, Depth;
    DepthIsMostAlike(es, size);
    var d := Depth(es, size);
    if d != 1 {
      var r: nat :| r < size && |Alike(es, size, r)| == d;
    }
    if depth != 1 {
      var r: nat :| r < size && |Alike(es, size, r)| == depth;
    }
  }

  /** No size from `start` on fits into UINT_MAX cells. */
  ghost predicate Infeasible(es: seq<Entry>, start: nat)
    requires start > 0
  {
    forall s :: s >= start ==> Total(es, s) > UINT_MAX
  }

  lemma TotalAtLeastSize(es: seq<Entry>, size: nat)
    requires size > 0
    ensures Total(es, size) >= size
  {
  }

  /** Once the next size to test exceeds the best total, no further size can win. */
  lemma UntestedSizesLose(es: seq<Entry>, start: nat, end: nat, size: nat)
    requires start > 0 && end > 0
    requires BestSoFar(es, start, end, size) && end > Total(es, size)
    ensures Optimal(es, start, size)
  {
    forall s | s >= start
      ensures Total(es, size) <= Total(es, s) && (Total(es, s) == Total(es, size) ==> s <= size)
    {
      if s >= end {
        TotalAtLeastSize(es, s);
      }
    }
  }

  /** What the inner loops know about the counters after `seen` messages: each
      is at most the true count, exact if no loop was left early, and `depth` is
      the largest of 1 and the counters. */
  ghost predicate Counting(deep: seq<nat>, seen: seq<Entry>, size: nat, depth: nat, exact: bool)
    requires size > 0
  {
    && |deep| == size
    && depth >= 1
    && (forall b :: 0 <= b < size ==> deep[b] <= depth)
    && (depth == 1 || exists b :: 0 <= b < size && deep[b] == depth)
    && (forall b :: 0 <= b < size ==> deep[b] <= Count(seen, size, b))
    && (exact ==> forall b :: 0 <= b < size ==> deep[b] == Count(seen, size, b))
  }

  lemma CountingStep(deep: seq<nat>, seen: seq<Entry>, size: nat, depth: nat, exact: bool, e: Entry)
    requires size > 0 && Counting(deep, seen, size, depth, exact)
    ensures var b := Bucket(size, e.setNo, e.msgNo);
            var d := deep[b] + 1;
            Counting(deep[b := d], seen + [e], size, if d > depth then d else depth, exact)
  {
    var b := Bucket(size, e.setNo, e.msgNo);
    var d := deep[b] + 1;
    assert (seen + [e])[..|seen|] == seen;
    var next := deep[b := d];
    if d > depth {
      assert next[b] == d;
    } else if depth != 1 {
      var c :| 0 <= c < size && deep[c] == depth;
      assert next[c] == depth;
    }
  }

  /** Entries skipped by an early exit only widen the gap to the true counts. */
  lemma CountingSkips(deep: seq<nat>, seen: seq<Entry>, size: nat, depth: nat, exact: bool, stillExact: bool,
                      all: seq<Entry>)
    requires size > 0 && Counting(deep, seen, size, depth, exact)
    requires seen <= all && (stillExact ==> exact && seen == all)
    ensures Counting(deep, all, size, depth, stillExact)
  {
    assert all[..|seen|] == seen;
    forall b | 0 <= b < size
      ensures Count(seen, size, b) <= Count(all, size, b)
    {
      CountPrefix(all, |seen|, size, b);
    }
  }

  lemma CountingDepth(deep: seq<nat>, es: seq<Entry>, size: nat, depth: nat, exact: bool)
    requires size > 0 && Counting(deep, es, size, depth, exact)
    ensures depth <= Depth(es, size)
    ensures exact ==> depth == Depth(es, size)
  {
    DepthUpToBounds(es, size, size);
    if exact {
      assert depth == 1 || exists b :: 0 <= b < size && Count(es, size, b) == depth by {
        if depth != 1 {
          var b :| 0 <= b < size && deep[b] == depth;
          assert Count(es, size, b) == depth;
        }
      }
      DepthIsLargestBucket(es, size, depth);
    }
  }

  /** Count the messages of one set. The loop is left early as soon as `size`
      columns are seen to need more than `bestTotal` cells. */
  method CountSet(deep: array<nat>, group: MessageSet, depth0: nat, bestTotal: nat, ghost before: seq<Entry>,
                  ghost exact: bool)
    returns (depth: nat, ghost complete: bool)
    requires deep.Length > 0 && Counting(deep[..], before, deep.Length, depth0, exact)
    modifies deep
    ensures depth >= depth0
    ensures complete || depth * deep.Length > bestTotal
    ensures Counting(deep[..], before + SetEntries(group.number, group.messages), deep.Length, depth, exact && complete)
  {
    var size, messages := deep.Length, group.messages;
    ghost var upTo := before + SetEntries(group.number, messages);
    ghost var counts, seen := deep[..], before;
    depth, complete := depth0, true;
    var j := 0;
    while j < |messages|
      invariant 0 <= j <= |messages| && depth >= depth0
      invariant deep[..] == counts && seen == upTo[..|before| + j]
      invariant Counting(counts, seen, size, depth, exact)
    {
      var idx := Bucket(size, group.number, messages[j].number);
      CountingStep(counts, seen, size, depth, exact, upTo[|seen|]);
      deep[idx] := deep[idx] + 1;
      counts, seen := counts[idx := counts[idx] + 1], seen + [upTo[|seen|]];
      j := j + 1;
      if deep[idx] > depth {
        depth := deep[idx];
        if depth * size > bestTotal {
          complete := false;
          break;
        }
      }
    }
    CountingSkips(counts, seen, size, depth, exact, exact && complete, upTo);
  }

  /** The depth needed for `size` columns, or some lesser depth that already
      needs more than `bestTotal` cells: leaving the inner loop early skips the
      rest of one set only, but such a partly counted size is never accepted. */
  method MeasureDepth(sets: seq<MessageSet>, size: nat, bestTotal: nat) returns (depth: nat)
    requires size > 0
    ensures 1 <= depth <= Depth(Entries(sets), size)
    ensures depth * size <= bestTotal ==> depth == Depth(Entries(sets), size)
  {
    var deep := new nat[size](_ => 0);
    depth := 1;
    ghost var exact := true;
    var i := 0;
    while i < |sets|
      invariant 0 <= i <= |sets|
      invariant Counting(deep[..], Entries(sets[..i]), size, depth, exact)
      invariant exact || depth * size > bestTotal
    {
      ghost var before, complete := depth, true;
      depth, complete := CountSet(deep, sets[i], depth, bestTotal, Entries(sets[..i]), exact);
      GrowsWith(before, depth, size);
      exact := exact && complete;
      EntriesStep(sets, i);
      i := i + 1;
    }
    assert sets[..i] == sets;
    CountingDepth(deep[..], Entries(sets), size, depth, exact);
  }

  lemma GrowsWith(a: nat, b: nat, size: nat)
    requires a <= b
    ensures a * size <= b * size
  {
  }

  /** The size and depth that `write_out` settles on, for `total` counted messages. */
  method ChooseSize(sets: seq<MessageSet>, total: nat) returns (size: nat, depth: nat)
    ensures size > 0
    ensures var es, start := Entries(sets), 1 + total / 5;
            if Infeasible(es, start) || Optimal(es, start, UINT_MAX) then size == depth == 1
            else Optimal(es, start, size) && depth == Depth(es, size) && MostAlike(es, size, depth)
  {
    hide Entries, Depth, MostAlike;
    ghost var es := Entries(sets);
    var start := 1 + total / 5;
    var bestTotal;
    bestTotal, size, depth := UINT_MAX, UINT_MAX, UINT_MAX;
    var act := start;
    ghost var found := false;
    while act <= bestTotal
      invariant start <= act && bestTotal <= UINT_MAX
      invariant !found ==> bestTotal == size == UINT_MAX && forall s :: start <= s < act ==> Total(es, s) > UINT_MAX
      invariant found ==> BestSoFar(es, start, act, size) && bestTotal == Total(es, size) && depth == Depth(es, size)
      decreases bestTotal - act
    {
      var actDepth := MeasureDepth(sets, act, bestTotal);
      if actDepth * act <= bestTotal {
        bestTotal, size, depth := actDepth * act, act, actDepth;
        found := true;
      } else {
        GrowsWith(actDepth, Depth(es, act), act);
      }
      act := act + 1;
    }
    if found {
      UntestedSizesLose(es, start, act, size);
      TotalAtLeastSize(es, size);
    } else {
      forall s | s >= start ensures Total(es, s) > UINT_MAX {
        TotalAtLeastSize(es, s);
      }
    }
    if size == UINT_MAX {
      size, depth := 1, 1;
    } else {
      DepthIsMostAlike(es, size);
    }
  }

  /** For any catalog of realistic extent the search finds the true optimum. */
  lemma RealisticSizesAreFeasible(es: seq<Entry>, start: nat)
    requires start > 0 && start * (|es| + 1) < UINT_MAX
    ensures !Infeasible(es, start) && !Optimal(es, start, UINT_MAX)
  {
    DepthAtMostLength(es, start);
    GrowsWith(Depth(es, start), |es| + 1, start);
    assert Total(es, start) < UINT_MAX;
    TotalAtLeastSize(es, UINT_MAX);
  }
}
