/** The measuring side (bench/src/lib.rs): the nearest-rank percentile, and the
    full-duplex echo transfer through bounded buffers. */
module Bench {
  import opened Basics

  // ------------------------------------------------------------ percentile_95

  function InsertSorted(s: seq<nat>, v: nat): (r: seq<nat>)
    ensures |r| == |s| + 1
  {
    if s == [] || s[|s| - 1] <= v then s + [v] else InsertSorted(s[..|s| - 1], v) + [s[|s| - 1]]
  }

  function Sort(s: seq<nat>): (r: seq<nat>)
    ensures |r| == |s|
  {
    if s == [] then [] else InsertSorted(Sort(s[..|s| - 1]), s[|s| - 1])
  }

  predicate Sorted(s: seq<nat>) {
    forall i, j :: 0 <= i < j < |s| ==> s[i] <= s[j]
  }

  function AtMost(s: seq<nat>, v: nat): nat {
    if s == [] then 0 else AtMost(s[..|s| - 1], v) + if s[|s| - 1] <= v then 1 else 0
  }

  function Below(s: seq<nat>, v: nat): nat {
    if s == [] then 0 else Below(s[..|s| - 1], v) + if s[|s| - 1] < v then 1 else 0
  }

  lemma {:induction false} InsertIsSorted(s: seq<nat>, v: nat)
    requires Sorted(s)
    ensures var r := InsertSorted(s, v);
            Sorted(r) && r[|r| - 1] == if s == [] || s[|s| - 1] <= v then v else s[|s| - 1]
  {
    if s != [] && s[|s| - 1] > v {
      InsertIsSorted(s[..|s| - 1], v);
    }
  }

  lemma {:induction false} InsertIsPermutation(s: seq<nat>, v: nat)
    ensures multiset(InsertSorted(s, v)) == multiset(s) + multiset{v}
  {
    if s != [] && s[|s| - 1] > v {
      InsertIsPermutation(s[..|s| - 1], v);
      assert s == s[..|s| - 1] + [s[|s| - 1]];
    }
  }

  lemma {:induction false} InsertCounts(s: seq<nat>, v: nat, x: nat)
    ensures AtMost(InsertSorted(s, v), x) == AtMost(s, x) + if v <= x then 1 else 0
    ensures Below(InsertSorted(s, v), x) == Below(s, x) + if v < x then 1 else 0
  {
    if s == [] || s[|s| - 1] <= v {
      assert (s + [v])[..|s|] == s;
    } else {
      var front, last := s[..|s| - 1], s[|s| - 1];
      InsertCounts(front, v, x);
      var r := InsertSorted(front, v);
      assert (r + [last])[..|r|] == r;
    }
  }

  lemma {:induction false} SortIsSorted(s: seq<nat>)
    ensures Sorted(Sort(s))
  {
    if s != [] {
      SortIsSorted(s[..|s| - 1]);
      InsertIsSorted(Sort(s[..|s| - 1]), s[|s| - 1]);
    }
  }

  lemma {:induction false} SortIsPermutation(s: seq<nat>)
    ensures multiset(Sort(s)) == multiset(s)
  {
    if s != [] {
      SortIsPermutation(s[..|s| - 1]);
      InsertIsPermutation(Sort(s[..|s| - 1]), s[|s| - 1]);
      DropLast(s);
    }
  }

  lemma {:induction false} SortCounts(s: seq<nat>, x: nat)
    ensures AtMost(Sort(s), x) == AtMost(s, x) && Below(Sort(s), x) == Below(s, x)
  {
    if s != [] {
      SortCounts(s[..|s| - 1], x);
      InsertCounts(Sort(s[..|s| - 1]), s[|s| - 1], x);
    }
  }

  lemma {:induction false} RankInSorted(s: seq<nat>, k: nat)
    requires Sorted(s) && k < |s|
    ensures AtMost(s, s[k]) >= k + 1 && Below(s, s[k]) <= k
  {
    var front := s[..|s| - 1];
    if k < |s| - 1 {
      RankInSorted(front, k);
    } else {
      AllAtMost(s, s[k]);
      AllAtMost(front, s[k]);
    }
  }

  lemma {:induction false} AllAtMost(s: seq<nat>, v: nat)
    requires forall i :: 0 <= i < |s| ==> s[i] <= v
    ensures AtMost(s, v) == |s| && Below(s, v) <= |s|
  {
    if s != [] {
      AllAtMost(s[..|s| - 1], v);
    }
  }

  lemma {:induction false} AtMostBelow(s: seq<nat>, v: nat, w: nat)
    requires v < w
    ensures AtMost(s, v) <= Below(s, w)
  {
    if s != [] {
      AtMostBelow(s[..|s| - 1], v, w);
    }
  }

  function Rank(n: nat): nat {
    (95 * n + 99) / 100
  }

  lemma RankInRange(n: nat)
    requires n > 0
    ensures 1 <= Rank(n) <= n
    ensures 100 * Rank(n) >= 95 * n && 100 * (Rank(n) - 1) < 95 * n
  {
  }

  function Percentile95(samples: seq<nat>): nat
    requires samples != []
  {
    RankInRange(|samples|);
    Sort(samples)[Rank(|samples|) - 1]
  }

  /** At least 95% of the samples are at most v, and fewer than 95% below it. */
  predicate NearestRank(samples: seq<nat>, v: nat) {
    v in samples && 100 * AtMost(samples, v) >= 95 * |samples| && 100 * Below(samples, v) < 95 * |samples|
  }

  lemma {:induction false} SortedMember(samples: seq<nat>, k: nat)
    requires k < |samples|
    ensures Sort(samples)[k] in samples
  {
    SortIsPermutation(samples);
    assert Sort(samples)[k] in multiset(Sort(samples));
  }

  /** The element at sorted position Rank - 1 has the nearest rank. */
  lemma RankSuffices(samples: seq<nat>, v: nat)
    requires samples != [] && v in samples
    requires AtMost(samples, v) >= Rank(|samples|) && Below(samples, v) <= Rank(|samples|) - 1
    ensures NearestRank(samples, v)
  {
    RankInRange(|samples|);
    hide Rank, AtMost, Below;
  }

  lemma PercentileHasRank(samples: seq<nat>)
    requires samples != []
    ensures NearestRank(samples, Percentile95(samples))
  {
    var k, sorted := Rank(|samples|) - 1, Sort(samples);
    RankInRange(|samples|);
    hide Rank, Sort, AtMost, Below, Sorted, NearestRank;
    SortedMember(samples, k);
    SortIsSorted(samples);
    RankInSorted(sorted, k);
    SortCounts(samples, sorted[k]);
    RankSuffices(samples, sorted[k]);
  }

  /** The percentile is the one observed sample of nearest rank. */
  lemma PercentileExact(samples: seq<nat>, v: nat)
    requires samples != []
    ensures NearestRank(samples, v) <==> v == Percentile95(samples)
  {
    var r := Percentile95(samples);
    PercentileHasRank(samples);
    if NearestRank(samples, v) && v < r {
      AtMostBelow(samples, v, r);
    } else if NearestRank(samples, v) && r < v {
      AtMostBelow(samples, r, v);
    }
  }

  lemma LastBounds(a: seq<nat>, x: nat)
    requires Sorted(a) && x in multiset(a)
    ensures a != [] && x <= a[|a| - 1]
  {
    var i :| 0 <= i < |a| && a[i] == x;
  }

  lemma DropLast(a: seq<nat>)
    requires a != []
    ensures multiset(a[..|a| - 1]) == multiset(a) - multiset{a[|a| - 1]}
  {
    assert a == a[..|a| - 1] + [a[|a| - 1]];
  }

  lemma SameLast(a: seq<nat>, b: seq<nat>)
    requires Sorted(a) && Sorted(b) && multiset(a) == multiset(b) && a != []
    ensures b != [] && a[|a| - 1] == b[|b| - 1]
    ensures multiset(a[..|a| - 1]) == multiset(b[..|b| - 1])
  {
    assert a[|a| - 1] in multiset(a);
    LastBounds(b, a[|a| - 1]);
    assert b[|b| - 1] in multiset(b);
    LastBounds(a, b[|b| - 1]);
    DropLast(a);
    DropLast(b);
  }

  lemma {:induction false} SortedUnique(a: seq<nat>, b: seq<nat>)
    requires Sorted(a) && Sorted(b) && multiset(a) == multiset(b)
    ensures a == b
    decreases |a|
  {
    if a == [] {
      assert |b| == |multiset(b)| == 0;
    } else {
      SameLast(a, b);
      SortedUnique(a[..|a| - 1], b[..|b| - 1]);
      assert a == a[..|a| - 1] + [a[|a| - 1]];
      assert b == b[..|b| - 1] + [b[|b| - 1]];
    }
  }

  /** The order in which samples were taken does not matter. */
  lemma PercentileIgnoresOrder(a: seq<nat>, b: seq<nat>)
    requires a != [] && multiset(a) == multiset(b)
    ensures b != [] && Percentile95(a) == Percentile95(b)
  {
    assert |a| == |multiset(a)| == |multiset(b)| == |b|;
    SortIsSorted(a);
    SortIsSorted(b);
    SortIsPermutation(a);
    SortIsPermutation(b);
    SortedUnique(Sort(a), Sort(b));
  }

  lemma {:induction false} InsertSplit(s: seq<nat>, j: nat, v: nat)
    requires j <= |s| && forall k :: j <= k < |s| ==> s[k] > v
    ensures InsertSorted(s, v) == InsertSorted(s[..j], v) + s[j..]
  {
    if j < |s| {
      var front := s[..|s| - 1];
      InsertSplit(front, j, v);
      assert front[..j] == s[..j] && s[j..] == front[j..] + [s[|s| - 1]];
    } else {
      assert s[..j] == s;
    }
  }

  /** Moves element i down to its place among the sorted elements before it. */
  method Insert(a: array<nat>, i: nat)
    requires i < a.Length
    modifies a
    ensures a[..i + 1] == InsertSorted(old(a[..i]), old(a[i]))
    ensures forall k :: i < k < a.Length ==> a[k] == old(a[k])
  {
    var v := a[i];
    ghost var before := a[..];
    var j := i;
    while j > 0 && a[j - 1] > v
      invariant j <= i
      invariant forall k :: 0 <= k < j ==> a[k] == before[k]
      invariant forall k :: j < k <= i ==> a[k] == before[k - 1]
      invariant forall k :: i < k < a.Length ==> a[k] == before[k]
      invariant forall k :: j <= k < i ==> before[k] > v
    {
      a[j] := a[j - 1];
      j := j - 1;
    }
    a[j] := v;
    InsertSplit(before[..i], j, v);
    assert before[..i][..j] == before[..j] && before[..i][j..] == before[j..i];
    assert InsertSorted(before[..j], v) == before[..j] + [v];
    hide InsertSorted;
    assert a[..i + 1] == before[..j] + [v] + before[j..i];
  }

  method SortInPlace(a: array<nat>)
    modifies a
    ensures a[..] == Sort(old(a[..]))
  {
    ghost var was := a[..];
    for i := 0 to a.Length
      invariant a[..i] == Sort(was[..i])
      invariant forall k :: i <= k < a.Length ==> a[k] == was[k]
    {
      Insert(a, i);
      assert was[..i + 1][..i] == was[..i];
    }
    assert a[..a.Length] == a[..] && was[..a.Length] == was;
  }

  method PercentileOf(samples: seq<nat>) returns (r: nat)
    requires samples != []
    ensures r == Percentile95(samples)
    ensures NearestRank(samples, r)
  {
    var sorted := new nat[|samples|];
    forall i | 0 <= i < |samples| {
      sorted[i] := samples[i];
    }
    assert sorted[..] == samples;
    SortInPlace(sorted);
    RankInRange(|samples|);
    var rank := (95 * sorted.Length + 99) / 100;
    assert sorted[..][rank - 1] == Percentile95(samples);
    r := sorted[rank - 1];
    PercentileHasRank(samples);
  }

  // ------------------------------------------------------------------- echo

  /** Capacities of the socket buffers and of the echo copier, and the sizes in
      which the client writes and reads. */
  datatype Limits = Limits(outward: nat, copier: nat, inward: nat, chunk: nat)

  predicate Positive(l: Limits) {
    l.outward > 0 && l.copier > 0 && l.inward > 0 && l.chunk > 0
  }

  /** Writer, echo copier and reader with the bytes between them. */
  datatype Echo = Echo(payload: bytes, sent: nat, shut: bool, outward: bytes, copier: bytes, copied: bool,
                       inward: bytes, received: bytes)

  datatype Move = Write(n: nat) | Shut | CopyIn(n: nat) | CopyOut(n: nat) | CopyEnd | Read(n: nat)

  /** What is left of the chunk of a loop that has handled `done` of `total`. */
  function ChunkRest(done: nat, total: nat, chunk: nat): nat
    requires chunk > 0 && done <= total
  {
    var rest := chunk - done % chunk;
    if rest <= total - done then rest else total - done
  }

  /** A loop handles at most one chunk at a time: up to the next multiple of the
      chunk size or the end of the total, whichever comes first. */
  lemma ChunkRestExact(done: nat, total: nat, chunk: nat)
    requires chunk > 0 && done <= total
    ensures var n := ChunkRest(done, total, chunk);
            && (done < total ==> 1 <= n <= chunk)
            && (done + n == total || (done + n < total && n == chunk - done % chunk))
  {
  }

  predicate Consistent(l: Limits, e: Echo) {
    && Positive(l)
    && e.sent <= |e.payload|
    && e.received + e.inward + e.copier + e.outward == e.payload[..e.sent]
    && |e.outward| <= l.outward && |e.copier| <= l.copier && |e.inward| <= l.inward
    && (e.shut ==> e.sent == |e.payload|)
    && (e.copied ==> e.shut && e.outward == [] && e.copier == [])
  }

  predicate Enabled(l: Limits, e: Echo, m: Move)
    requires Consistent(l, e)
  {
    match m
    case Write(n) => !e.shut && 1 <= n <= ChunkRest(e.sent, |e.payload|, l.chunk) && |e.outward| + n <= l.outward
    case Shut => !e.shut && e.sent == |e.payload|
    case CopyIn(n) => 1 <= n <= |e.outward| && |e.copier| + n <= l.copier
    case CopyOut(n) => 1 <= n <= |e.copier| && |e.inward| + n <= l.inward
    case CopyEnd => !e.copied && e.shut && e.outward == [] && e.copier == []
    case Read(n) =>
      1 <= n <= |e.inward| && |e.received| <= |e.payload| && n <= ChunkRest(|e.received|, |e.payload|, l.chunk)
  }

  function Perform(l: Limits, e: Echo, m: Move): Echo
    requires Consistent(l, e) && Enabled(l, e, m)
  {
    match m
    case Write(n) => e.(sent := e.sent + n, outward := e.outward + e.payload[e.sent..e.sent + n])
    case Shut => e.(shut := true)
    case CopyIn(n) => e.(outward := e.outward[n..], copier := e.copier + e.outward[..n])
    case CopyOut(n) => e.(copier := e.copier[n..], inward := e.inward + e.copier[..n])
    case CopyEnd => e.(copied := true)
    case Read(n) => e.(inward := e.inward[n..], received := e.received + e.inward[..n])
  }

  predicate Final(e: Echo) {
    e.shut && e.copied && |e.received| == |e.payload|
  }

  function Measure(e: Echo): int {
    4 * (|e.payload| - e.sent) + 3 * |e.outward| + 2 * |e.copier| + |e.inward| +
    (if e.shut then 0 else 1) + (if e.copied then 0 else 1)
  }

  lemma Rechunk(a: bytes, b: bytes, n: nat)
    requires n <= |b|
    ensures a + b[..n] + b[n..] == a + b
  {
    assert b[..n] + b[n..] == b;
    assert a + b[..n] + b[n..] == a + (b[..n] + b[n..]);
  }

  lemma Reassociate(a: bytes, b: bytes, c: bytes)
    ensures a + (b + c) == a + b + c
  {
  }

  lemma WriteKeeps(l: Limits, e: Echo, n: nat)
    requires Consistent(l, e) && Enabled(l, e, Write(n))
    ensures Consistent(l, Perform(l, e, Write(n)))
  {
    var more := e.payload[e.sent..e.sent + n];
    assert e.payload[..e.sent + n] == e.payload[..e.sent] + more;
    Reassociate(e.received + e.inward + e.copier, e.outward, more);
  }

  lemma CopyInKeeps(l: Limits, e: Echo, n: nat)
    requires Consistent(l, e) && Enabled(l, e, CopyIn(n))
    ensures Consistent(l, Perform(l, e, CopyIn(n)))
  {
    Reassociate(e.received + e.inward, e.copier, e.outward[..n]);
    Rechunk(e.received + e.inward + e.copier, e.outward, n);
  }

  lemma CopyOutKeeps(l: Limits, e: Echo, n: nat)
    requires Consistent(l, e) && Enabled(l, e, CopyOut(n))
    ensures Consistent(l, Perform(l, e, CopyOut(n)))
  {
    Reassociate(e.received, e.inward, e.copier[..n]);
    Rechunk(e.received + e.inward, e.copier, n);
  }

  lemma ReadKeeps(l: Limits, e: Echo, n: nat)
    requires Consistent(l, e) && Enabled(l, e, Read(n))
    ensures Consistent(l, Perform(l, e, Read(n)))
  {
    Rechunk(e.received, e.inward, n);
  }

  /** Every move keeps order and content of the bytes in transit, respects every
      capacity and brings the transfer strictly closer to its end. */
  lemma {:induction false} MoveKeepsAndProgresses(l: Limits, e: Echo, m: Move)
    requires Consistent(l, e) && Enabled(l, e, m)
    ensures Consistent(l, Perform(l, e, m))
    ensures 0 <= Measure(Perform(l, e, m)) < Measure(e)
    ensures Perform(l, e, m).payload == e.payload
  {
    match m
    case Write(n) => WriteKeeps(l, e, n);
    case CopyIn(n) => CopyInKeeps(l, e, n);
    case CopyOut(n) => CopyOutKeeps(l, e, n);
    case Read(n) => ReadKeeps(l, e, n);
    case _ =>
  }

  /** Each task can move any amount its chunk and the buffers allow, and no more;
      each end is noticed exactly when everything before it has passed. */
  lemma EnabledExact(l: Limits, e: Echo, n: nat)
    requires Consistent(l, e) && n > 0
    ensures Enabled(l, e, Write(n)) <==>
              !e.shut && n <= ChunkRest(e.sent, |e.payload|, l.chunk) && n <= l.outward - |e.outward|
    ensures Enabled(l, e, CopyIn(n)) <==> n <= |e.outward| && n <= l.copier - |e.copier|
    ensures Enabled(l, e, CopyOut(n)) <==> n <= |e.copier| && n <= l.inward - |e.inward|
    ensures Enabled(l, e, Read(n)) <==>
              n <= |e.inward| && |e.received| <= |e.payload| && n <= ChunkRest(|e.received|, |e.payload|, l.chunk)
    ensures Enabled(l, e, Shut) <==> !e.shut && e.sent == |e.payload|
    ensures Enabled(l, e, CopyEnd) <==> !e.copied && e.shut && |e.outward| + |e.copier| == 0
  {
  }

  /** A move of n bytes takes exactly n from one side and gives n to the other. */
  lemma MovesExactly(l: Limits, e: Echo, n: nat)
    requires Consistent(l, e)
    ensures Enabled(l, e, Write(n)) ==>
              var f := Perform(l, e, Write(n));
              f == e.(sent := e.sent + n, outward := f.outward) && |f.outward| == |e.outward| + n
    ensures Enabled(l, e, CopyIn(n)) ==>
              var f := Perform(l, e, CopyIn(n));
              && f == e.(outward := f.outward, copier := f.copier)
              && |f.outward| == |e.outward| - n && |f.copier| == |e.copier| + n
    ensures Enabled(l, e, CopyOut(n)) ==>
              var f := Perform(l, e, CopyOut(n));
              && f == e.(copier := f.copier, inward := f.inward)
              && |f.copier| == |e.copier| - n && |f.inward| == |e.inward| + n
    ensures Enabled(l, e, Read(n)) ==>
              var f := Perform(l, e, Read(n));
              && f == e.(inward := f.inward, received := f.received)
              && |f.inward| == |e.inward| - n && |f.received| == |e.received| + n
    ensures Enabled(l, e, Shut) ==> Perform(l, e, Shut) == e.(shut := true)
    ensures Enabled(l, e, CopyEnd) ==> Perform(l, e, CopyEnd) == e.(copied := true)
  {
  }

  /** A move that is possible as long as the transfer is not over. */
  function SomeMove(e: Echo): Move {
    if e.inward != [] then Read(1)
    else if e.copier != [] then CopyOut(1)
    else if e.outward != [] then CopyIn(1)
    else if e.sent < |e.payload| then Write(1)
    else if !e.shut then Shut
    else CopyEnd
  }

  /** Some task can always move until all three are done: no deadlock, however
      small the buffers. */
  lemma NoDeadlock(l: Limits, e: Echo)
    requires Consistent(l, e) && !Final(e)
    ensures Enabled(l, e, SomeMove(e))
  {
    assert |e.received| + |e.inward| + |e.copier| + |e.outward| == e.sent;
  }

  /** A finished transfer moved the whole payload both ways, in order. */
  lemma FinishedEchoIsExact(l: Limits, e: Echo)
    requires Consistent(l, e) && Final(e)
    ensures e.sent == |e.payload| && e.received == e.payload
  {
    assert e.payload[..e.sent] == e.payload;
    assert |e.received| + |e.inward| + |e.copier| + |e.outward| == e.sent;
  }

  /** With every buffer full and bytes left to send, only the reader can move:
      a client that wrote everything before reading would wait for ever. */
  lemma FullPipelineNeedsTheReader(l: Limits, e: Echo, m: Move)
    requires Consistent(l, e) && Enabled(l, e, m)
    requires e.sent < |e.payload|
    requires |e.outward| == l.outward && |e.copier| == l.copier && |e.inward| == l.inward
    ensures m.Read?
  {
  }

  /** A scheduler picks, at every moment, some move that is possible. */
  ghost predicate Picks(l: Limits, schedule: (Echo, nat) -> Move) {
    forall e, i: nat :: Consistent(l, e) && !Final(e) ==> Enabled(l, e, schedule(e, i))
  }

  /** There are schedulers for all positive capacities, because nothing ever
      deadlocks. */
  lemma SchedulersExist(l: Limits) returns (schedule: (Echo, nat) -> Move)
    ensures Picks(l, schedule)
  {
    schedule := (e, i) => SomeMove(e);
    forall e | Consistent(l, e) && !Final(e)
      ensures Enabled(l, e, SomeMove(e))
    {
      NoDeadlock(l, e);
    }
  }

  /** The end of the run a scheduler makes. */
  ghost function Follow(l: Limits, e: Echo, schedule: (Echo, nat) -> Move, at: nat): (end: Echo)
    requires Consistent(l, e) && Picks(l, schedule)
    ensures Consistent(l, end) && Final(end) && end.payload == e.payload
    decreases Measure(e)
  {
    if Final(e) then e
    else
      var m := schedule(e, at);
      MoveKeepsAndProgresses(l, e, m);
      Follow(l, Perform(l, e, m), schedule, at + 1)
  }

  /** Whoever schedules the three tasks, the transfer ends, and it has moved
      exactly the payload in each direction. */
  lemma EveryScheduleFinishesExactly(l: Limits, payload: bytes, schedule: (Echo, nat) -> Move)
    requires Positive(l) && Picks(l, schedule)
    ensures var start := Echo(payload, 0, false, [], [], false, [], []);
            Consistent(l, start) &&
            var end := Follow(l, start, schedule, 0);
            Final(end) && end.sent == |payload| && end.received == payload
  {
    var start := Echo(payload, 0, false, [], [], false, [], []);
    FinishedEchoIsExact(l, Follow(l, start, schedule, 0));
  }
}
