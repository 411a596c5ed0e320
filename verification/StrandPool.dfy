/** The strand pool: resizing, the selection strategies, and weighted choice. */
module StrandPool {
  import opened Search
  import opened HashRing
  import Sorting

  /** The share of requests still active, from active and completed ones, as floating-point division gives it. */
  type Load = (nat, nat) -> real

  /** That share times 100, rounded down as floating-point arithmetic does: any function up to 100. */
  type Percent = f: (nat, nat) -> nat | forall a, c :: f(a, c) <= 100 witness ExactPercent

  /** The share without rounding, which is one such function. */
  function ExactPercent(active: nat, completed: nat): (r: nat)
    ensures r <= 100
  {
    if active + completed == 0 then 0
    else
      WeightBound(active, completed);
      100 * active / (active + completed)
  }

  datatype Stats = Stats(total: nat, active: nat, completed: nat, healthy: bool) {
    /** The weight in weighted selection. */
    function Weight(percent: Percent): (w: nat)
      ensures w <= 100 && w + percent(active, completed) == 100
    {
      100 - percent(active, completed)
    }

    function Used(): Stats { this.(total := total + 1, active := active + 1) }
  }

  lemma {:induction false} WeightBound(active: nat, completed: nat)
    requires active + completed > 0
    ensures 0 <= 100 * active / (active + completed) <= 100
  {
    var t := active + completed;
    var q := 100 * active / t;
    assert q * t <= 100 * active <= 100 * t;
    if q > 100 {
      TimesMonotone(101, q, t);
    }
  }

  lemma {:induction false} TimesMonotone(a: nat, b: nat, t: nat)
    requires a <= b
    ensures a * t <= b * t
  {
  }

  const FRESH_STATS := Stats(0, 0, 0, true)

  // ---- Removing strands by indices computed in advance ----

  function EraseAt<T>(s: seq<T>, i: nat): seq<T> {
    if i < |s| then s[..i] + s[i + 1..] else s
  }

  function EraseAll<T>(s: seq<T>, indices: seq<nat>): (r: seq<T>)
    ensures |s| - |indices| <= |r| <= |s|
    decreases |indices|
  {
    if indices == [] then s else EraseAll(EraseAt(s, indices[0]), indices[1..])
  }

  /** Every erase finds its index still in range. */
  predicate AllInRange(size: nat, indices: seq<nat>) {
    forall k :: 0 <= k < |indices| ==> indices[k] < size - k
  }

  /** Every removal removes a strand exactly when every index is still in range at its turn. */
  lemma {:induction false} RemovalIsExact<T>(s: seq<T>, indices: seq<nat>)
    requires |indices| <= |s|
    ensures |EraseAll(s, indices)| == |s| - |indices| <==> AllInRange(|s|, indices)
    decreases |indices|
  {
    if indices != [] {
      var t, rest := EraseAt(s, indices[0]), indices[1..];
      if indices[0] < |s| {
        RemovalIsExact(t, rest);
        assert forall k :: 0 <= k < |rest| ==> rest[k] == indices[k + 1];
        if AllInRange(|t|, rest) {
          forall k | 0 <= k < |indices| ensures indices[k] < |s| - k {
            if k > 0 { assert rest[k - 1] < |t| - (k - 1); }
          }
        }
        if AllInRange(|s|, indices) {
          forall k | 0 <= k < |rest| ensures rest[k] < |t| - k {
            assert indices[k + 1] < |s| - (k + 1);
          }
        }
      } else {
        assert |EraseAll(t, rest)| >= |s| - |rest|;
      }
    }
  }

  /** Where the element that ends up at `i` was before the erases. */
  function Origin(size: nat, indices: seq<nat>, i: nat): nat
    decreases |indices|
  {
    if indices == [] then i
    else if indices[0] >= size then Origin(size, indices[1..], i)
    else
      var j := Origin(size - 1, indices[1..], i);
      if j >= indices[0] then j + 1 else j
  }

  /** Every erase that is in range at its turn lies above `i`. */
  predicate ErasesAbove(size: nat, indices: seq<nat>, i: nat)
    decreases |indices|
  {
    indices == [] ||
    (if indices[0] >= size then ErasesAbove(size, indices[1..], i)
     else indices[0] > i && ErasesAbove(size - 1, indices[1..], i))
  }

  lemma {:induction false} ErasedAt<T>(s: seq<T>, indices: seq<nat>, i: nat)
    requires i < |EraseAll(s, indices)|
    ensures Origin(|s|, indices, i) < |s| && EraseAll(s, indices)[i] == s[Origin(|s|, indices, i)]
    decreases |indices|
  {
    if indices != [] { ErasedAt(EraseAt(s, indices[0]), indices[1..], i); }
  }

  /** An element stays at its index exactly when every effective erase lies above it; otherwise it came from further up. */
  lemma {:induction false} OriginExactly(size: nat, indices: seq<nat>, i: nat)
    ensures Origin(size, indices, i) >= i && (Origin(size, indices, i) == i <==> ErasesAbove(size, indices, i))
    decreases |indices|
  {
    if indices != [] { OriginExactly(if indices[0] >= size then size else size - 1, indices[1..], i); }
  }

  ghost predicate Distinct<T>(s: seq<T>) { forall i, j :: 0 <= i < j < |s| ==> s[i] != s[j] }

  /** Different strands, among the first `created` ones. */
  ghost predicate Issued(strands: seq<Strand>, created: nat) {
    Distinct(strands) && forall i :: 0 <= i < |strands| ==> strands[i] < created
  }

  lemma {:induction false} IssueOneMore(strands: seq<Strand>, created: nat)
    requires Issued(strands, created)
    ensures Issued(strands + [created], created + 1)
  {
  }

  lemma {:induction false} EraseKeepsIssued(strands: seq<Strand>, indices: seq<nat>, created: nat)
    requires Issued(strands, created)
    ensures Issued(EraseAll(strands, indices), created)
    decreases |indices|
  {
    if indices != [] { EraseKeepsIssued(EraseAt(strands, indices[0]), indices[1..], created); }
  }

  /**
   A key before and after a shrink of distinct strands: it keeps its strand if and only if the
   strand now at its index was at its old one. A key whose index stays in the ring keeps that index,
   and so keeps its strand exactly when every effective removal was above it.
   */
  lemma {:induction false} AffinityAfterShrink<T>(h: NodeHash, n: nat, m: nat, key: nat, was: Entry, now: Entry,
                                                  strands: seq<T>, removed: seq<nat>)
    requires m <= n <= |strands| && Owner(h, n, key, was) && Owner(h, m, key, now)
    requires Distinct(strands) && m <= |EraseAll(strands, removed)|
    ensures was.index < n && now.index < m
    ensures EraseAll(strands, removed)[now.index] == strands[was.index] <==>
            Origin(|strands|, removed, now.index) == was.index
    ensures was.index < m ==>
              && now == was
              && (EraseAll(strands, removed)[now.index] == strands[was.index] <==>
                  ErasesAbove(|strands|, removed, was.index))
  {
    FewKeysMove(h, m, n, key, now, was);
    ErasedAt(strands, removed, now.index);
    OriginExactly(|strands|, removed, now.index);
  }

  /** After a grow a key keeps its strand exactly when it keeps its index, and otherwise goes to an index beyond the old size. */
  lemma {:induction false} AffinityAfterGrow<T>(h: NodeHash, n: nat, m: nat, key: nat, was: Entry, now: Entry,
                                                before: seq<T>, after: seq<T>)
    requires n <= m <= |after| && n <= |before| && before <= after && Distinct(after)
    requires Owner(h, n, key, was) && Owner(h, m, key, now)
    ensures was.index < n && now.index < m
    ensures after[now.index] == before[was.index] <==> now.index == was.index
    ensures now.index == was.index || now.index >= n
  {
    FewKeysMove(h, n, m, key, was, now);
    assert after[was.index] == before[was.index];
  }

  function Loads(load: Load, stats: seq<Stats>): seq<real> {
    seq(|stats|, i requires 0 <= i < |stats| => load(stats[i].active, stats[i].completed))
  }

  /** `order` lists the indices of `loads` once each, by increasing load. */
  ghost predicate IsLoadOrder(loads: seq<real>, order: seq<nat>) {
    && |order| == |loads|
    && (forall i :: 0 <= i < |order| ==> order[i] < |loads|)
    && (forall i, j :: 0 <= i < j < |order| ==> order[i] != order[j])
    && (forall i, j :: 0 <= i < j < |order| ==> loads[order[i]] <= loads[order[j]])
  }

  /** A busy strand, an idle one and a half-loaded one: the only order by load is 1, 2, 0. */
  const BUSY_FIRST := [Stats(1, 1, 0, true), Stats(1, 0, 1, true), Stats(2, 1, 1, true)]

  /**
   Shrunk to one, these three leave two strands, since index 2 is stale after the first removal.
   Shrunk to none, as a minimum size of 0 allows, they leave one.
   */
  lemma {:induction false} ShrinkCanLeaveExtraStrands<T>(load: Load, order: seq<nat>, a: T, b: T, c: T)
    requires load(0, 1) == 0.0 && load(1, 1) == 0.5 && load(1, 0) == 1.0 && IsLoadOrder(Loads(load, BUSY_FIRST), order)
    ensures order == [1, 2, 0]
    ensures EraseAll([a, b, c], order[..2]) == [a, c] && EraseAll([a, b, c], order[..3]) == [c]
  {
    assert Loads(load, BUSY_FIRST) == [1.0, 0.0, 0.5];
    assert order == [order[0], order[1], order[2]] == [1, 2, 0];
    assert EraseAt([a, b, c], 1) == [a, c] && EraseAt([a, c], 2) == [a, c] && EraseAt([a, c], 0) == [c];
    assert order[..2] == [1, 2] && [1, 2][1..] == [2] && [2][1..] == [];
    assert EraseAll([a, c], [2]) == EraseAll([a, c], []);
    assert order[..3] == [1, 2, 0] && [1, 2, 0][1..] == [2, 0] && [2, 0][1..] == [0] && [0][1..] == [];
    assert EraseAll([a, c], [2, 0]) == EraseAll([a, c], [0]) == EraseAll([c], []);
  }

  method SortByLoad(loads: seq<real>) returns (order: seq<nat>)
    ensures IsLoadOrder(loads, order)
  {
    var indices: seq<nat> := seq(|loads|, i => i);
    var lighter := (i: nat, j: nat) => LoadAt(loads, i) < LoadAt(loads, j);
    order := Sorting.Sort<nat>(lighter, indices);
    Sorting.PermutedStayDistinct(order, indices);
    forall i | 0 <= i < |order| ensures order[i] < |loads| {
      assert order[i] in multiset(indices);
    }
    forall i, j | 0 <= i < j < |order| ensures loads[order[i]] <= loads[order[j]] {
      assert !lighter(order[j], order[i]);
    }
  }

  function LoadAt(loads: seq<real>, i: nat): real { if i < |loads| then loads[i] else 0.0 }

  // ---- Weighted choice ----

  function WeightOf(percent: Percent, s: Stats): (w: nat)
    ensures w <= 100
  {
    if s.healthy then s.Weight(percent) else 0
  }

  /** The weight of the first `n` strands. */
  function WeightBefore(percent: Percent, stats: seq<Stats>, n: nat): nat
    requires n <= |stats|
  {
    if n == 0 then 0 else WeightBefore(percent, stats, n - 1) + WeightOf(percent, stats[n - 1])
  }

  lemma {:induction false} WeightGrows(percent: Percent, stats: seq<Stats>, m: nat, n: nat)
    requires m <= n <= |stats|
    ensures WeightBefore(percent, stats, m) <= WeightBefore(percent, stats, n)
    decreases n
  {
    if m < n { WeightGrows(percent, stats, m, n - 1); }
  }

  /** Draw `d` falls into the stretch that belongs to strand `i`. */
  predicate DrawSelects(percent: Percent, stats: seq<Stats>, d: nat, i: nat)
    requires i < |stats|
  {
    WeightBefore(percent, stats, i) <= d < WeightBefore(percent, stats, i + 1)
  }

  lemma {:induction false} DrawSelectsOne(percent: Percent, stats: seq<Stats>, d: nat, i: nat, j: nat)
    requires i < |stats| && j < |stats| && DrawSelects(percent, stats, d, i) && DrawSelects(percent, stats, d, j)
    ensures i == j
  {
    if i < j { WeightGrows(percent, stats, i + 1, j); }
    if j < i { WeightGrows(percent, stats, j + 1, i); }
  }

  /** The draws from `lo` up to but excluding `hi`. */
  ghost function Interval(lo: nat, hi: nat): (s: set<nat>)
    requires lo <= hi
    ensures |s| == hi - lo && forall d :: d in s <==> lo <= d < hi
    decreases hi
  {
    if lo == hi then {} else Interval(lo, hi - 1) + {hi - 1}
  }

  /** The draws below the total weight of the first `n` strands that select strand `i`. */
  ghost function DrawsFor(percent: Percent, stats: seq<Stats>, n: nat, i: nat): set<nat>
    requires i < n <= |stats|
  {
    set d | d in Interval(0, WeightBefore(percent, stats, n)) && DrawSelects(percent, stats, d, i)
  }

  /**
   Weighted choice is exactly proportional: among the possible draws, strand `i` is selected by
   as many as its weight, which is 0 for an unhealthy strand.
   */
  lemma {:induction false} ChoiceIsProportional(percent: Percent, stats: seq<Stats>, n: nat, i: nat)
    requires i < n <= |stats|
    ensures |DrawsFor(percent, stats, n, i)| ==
            if stats[i].healthy then 100 - percent(stats[i].active, stats[i].completed) else 0
    ensures |Interval(0, WeightBefore(percent, stats, n))| == WeightBefore(percent, stats, n)
  {
    WeightGrows(percent, stats, i + 1, n);
    assert DrawsFor(percent, stats, n, i) == Interval(WeightBefore(percent, stats, i), WeightBefore(percent, stats, i + 1));
  }

  function Sum(s: seq<nat>): nat { if s == [] then 0 else Sum(s[..|s| - 1]) + s[|s| - 1] }

  /** The draws that each of the first `n` strands gets: none when it is unhealthy, else what it is not busy. */
  function Shares(percent: Percent, stats: seq<Stats>, n: nat): seq<nat>
    requires n <= |stats|
  {
    if n == 0 then []
    else
      var s := stats[n - 1];
      Shares(percent, stats, n - 1) + [if s.healthy then 100 - percent(s.active, s.completed) else 0]
  }

  /** The number of possible draws is the sum of the shares. */
  lemma {:induction false} TotalIsSum(percent: Percent, stats: seq<Stats>, n: nat)
    requires n <= |stats|
    ensures WeightBefore(percent, stats, n) == Sum(Shares(percent, stats, n))
    decreases n
  {
    if n > 0 {
      TotalIsSum(percent, stats, n - 1);
      var all := Shares(percent, stats, n);
      assert all[..|all| - 1] == Shares(percent, stats, n - 1);
    }
  }

  /** Of two healthy strands the one with the smaller share of active requests is chosen by at least as many draws. */
  lemma {:induction false} LessBusyGetsMore(percent: Percent, stats: seq<Stats>, n: nat, i: nat, j: nat)
    requires i < n <= |stats| && j < n && stats[i].healthy && stats[j].healthy
    requires percent(stats[i].active, stats[i].completed) <= percent(stats[j].active, stats[j].completed)
    ensures |DrawsFor(percent, stats, n, i)| >= |DrawsFor(percent, stats, n, j)|
  {
    ChoiceIsProportional(percent, stats, n, i);
    ChoiceIsProportional(percent, stats, n, j);
  }

  /** With the exact share, a fully busy strand is never drawn and an idle one by all of 100. */
  lemma {:induction false} BusyAndIdle(percent: Percent, stats: seq<Stats>, n: nat, i: nat)
    requires i < n <= |stats| && stats[i].healthy
    requires percent(stats[i].active, stats[i].completed) == ExactPercent(stats[i].active, stats[i].completed)
    ensures stats[i].active > 0 && stats[i].completed == 0 ==> |DrawsFor(percent, stats, n, i)| == 0
    ensures stats[i].active == 0 ==> |DrawsFor(percent, stats, n, i)| == 100
  {
    ChoiceIsProportional(percent, stats, n, i);
    if stats[i].active > 0 && stats[i].completed == 0 { FullyBusy(stats[i].active); }
  }

  lemma {:induction false} FullyBusy(active: nat)
    requires active > 0
    ensures ExactPercent(active, 0) == 100
  {
    WeightBound(active, 0);
    QuotientIs(active);
  }

  lemma {:induction false} QuotientIs(t: nat)
    requires t > 0
    ensures 100 * t / t >= 100
  {
    var x := 100 * t;
    var q := x / t;
    assert x < q * t + t;
    if q < 100 { TimesMonotone(q + 1, 100, t); }
  }

  // ---- The pool ----

  datatype Config = Config(initialSize: nat, minSize: nat, maxSize: nat)

  type Strand = nat

  const WORD := 0x1_0000_0000_0000_0000

  class Pool {
    const hash: NodeHash
    const load: Load
    const percent: Percent
    var config: Config
    var strands: seq<Strand>
    var stats: seq<Stats>
    var currentSize: nat
    var roundRobinIndex: nat
    var ring: seq<Entry>
    var created: nat

    ghost predicate Shaped()
      reads this
    {
      && currentSize <= |strands| == |stats|
      && Issued(strands, created)
      && IsRing(hash, currentSize, ring)
      && roundRobinIndex < WORD
    }

    /** A pool that strands can be taken from: no strategy divides by a size of 0. */
    ghost predicate Valid()
      reads this
    {
      Shaped() && (currentSize == 0 ==> strands == [])
    }

    constructor (hash: NodeHash, load: Load, percent: Percent, config: Config)
      ensures Valid() && this.config == config && this.hash == hash && this.load == load && this.percent == percent
      ensures currentSize == |strands| == config.initialSize
    {
      this.hash, this.load, this.percent, this.config := hash, load, percent, config;
      strands, stats, currentSize, roundRobinIndex, ring, created := [], [], 0, 0, [], 0;
      new;
      for i := 0 to config.initialSize
        invariant |strands| == |stats| == i && this.config == config && roundRobinIndex < WORD
        invariant Issued(strands, created)
      {
        IssueOneMore(strands, created);
        CreateStrand();
      }
      currentSize := config.initialSize;
      ring := BuildRing(this.hash, currentSize);
    }

    method CreateStrand()
      modifies this`strands, this`stats, this`created
      ensures strands == old(strands) + [old(created)] && stats == old(stats) + [Stats(0, 0, 0, true)] && created == old(created) + 1
    {
      strands := strands + [created];
      stats := stats + [FRESH_STATS];
      created := created + 1;
    }

    method RemoveStrand(index: nat)
      requires |strands| == |stats|
      modifies this`strands, this`stats
      ensures strands == EraseAt(old(strands), index) && stats == EraseAt(old(stats), index)
    {
      if index < |strands| {
        strands := strands[..index] + strands[index + 1..];
        stats := stats[..index] + stats[index + 1..];
      }
    }

    method Grow(newSize: nat)
      requires Shaped() && currentSize < newSize
      modifies this`strands, this`stats, this`created
      ensures |strands| == |stats| == |old(strands)| + newSize - currentSize
      ensures old(strands) <= strands && old(stats) <= stats
      ensures Issued(strands, created)
    {
      for i := currentSize to newSize
        invariant |strands| == |stats| == |old(strands)| + i - currentSize
        invariant old(strands) <= strands && old(stats) <= stats
        invariant Issued(strands, created)
      {
        IssueOneMore(strands, created);
        CreateStrand();
      }
    }

    /** Removes `count` strands, least loaded first, by indices computed before any removal. */
    method Shrink(count: nat) returns (ghost order: seq<nat>)
      requires Shaped() && count <= currentSize
      modifies this`strands, this`stats
      ensures IsLoadOrder(Loads(load, old(stats)[..currentSize]), order)
      ensures strands == EraseAll(old(strands), order[..count])
      ensures stats == EraseAll(old(stats), order[..count])
      ensures |strands| == |stats| && |strands| >= |old(strands)| - count
      ensures Issued(strands, created)
      ensures |strands| == currentSize - count <==>
              |old(strands)| == currentSize && AllInRange(|old(strands)|, order[..count])
    {
      var byLoad := SortByLoad(Loads(load, stats[..currentSize]));
      order := byLoad;
      assert order[0..count] == order[..count];
      for i := 0 to count
        invariant |strands| == |stats|
        invariant EraseAll(strands, order[i..count]) == EraseAll(old(strands), order[..count])
        invariant EraseAll(stats, order[i..count]) == EraseAll(old(stats), order[..count])
      {
        assert order[i..count][1..] == order[i + 1..count];
        RemoveStrand(byLoad[i]);
      }
      assert order[count..count] == [];
      RemovalIsExact(old(strands), order[..count]);
      EraseKeepsIssued(old(strands), order[..count], created);
    }

    /** Grows or shrinks and rebuilds the ring; `order` is the removal order when shrinking. */
    method Resize(newSize: nat) returns (ok: bool, ghost order: seq<nat>)
      requires Shaped()
      modifies this`strands, this`stats, this`created, this`currentSize, this`ring
      ensures Shaped() && (old(Valid()) && config.minSize >= 1 ==> Valid())
      ensures ok <==> config.minSize <= newSize <= config.maxSize
      ensures !ok ==> strands == old(strands) && stats == old(stats) && currentSize == old(currentSize)
      ensures ok ==> currentSize == newSize
      ensures ok && newSize >= old(currentSize) ==>
                old(strands) <= strands && |strands| == |old(strands)| + newSize - old(currentSize)
                && old(stats) <= stats
      ensures ok && newSize < old(currentSize) ==>
                IsLoadOrder(Loads(load, old(stats)[..old(currentSize)]), order)
                && strands == EraseAll(old(strands), order[..old(currentSize) - newSize])
                && stats == EraseAll(old(stats), order[..old(currentSize) - newSize])
                && (|strands| == newSize <==>
                    |old(strands)| == old(currentSize) && AllInRange(|old(strands)|, order[..old(currentSize) - newSize]))
    {
      order := [];
      if newSize < config.minSize || newSize > config.maxSize { return false, order; }
      if newSize == currentSize { return true, order; }
      if newSize > currentSize {
        Grow(newSize);
      } else {
        order := Shrink(currentSize - newSize);
      }
      currentSize := newSize;
      ring := BuildRing(hash, currentSize);
      ok := true;
    }

    method UpdateConfig(newConfig: Config) returns (ok: bool)
      requires Shaped()
      modifies this
      ensures Shaped() && (old(Valid()) && newConfig.minSize >= 1 ==> Valid()) && config == newConfig
      ensures ok <==> newConfig.initialSize == old(currentSize)
                      || newConfig.minSize <= newConfig.initialSize <= newConfig.maxSize
      ensures ok ==> currentSize == newConfig.initialSize
      ensures !ok ==> currentSize == old(currentSize) && strands == old(strands)
    {
      config := newConfig;
      ok := true;
      if newConfig.initialSize != currentSize {
        ghost var order;
        ok, order := Resize(newConfig.initialSize);
      }
    }

    /** Counts a request on strand `index`. */
    method UpdateStrandStats(index: nat)
      modifies this`stats
      ensures stats == if index < |old(stats)| then old(stats)[index := old(stats)[index].Used()] else old(stats)
      ensures index < |old(stats)| ==>
                var was := old(stats)[index];
                stats[index] == Stats(was.total + 1, was.active + 1, was.completed, was.healthy)
    {
      if index < |stats| {
        stats := stats[index := stats[index].Used()];
      }
    }

    /** `s` is strand `index`, within the current size, and one request was counted on it. */
    ghost predicate Selected(before: seq<Stats>, index: nat, s: Option<Strand>)
      reads this
    {
      && index < currentSize <= |strands| == |before|
      && s == Some(strands[index])
      && stats == before[index := before[index].(total := before[index].total + 1, active := before[index].active + 1)]
    }

    method RoundRobin() returns (s: Option<Strand>, index: nat)
      requires Valid()
      modifies this`stats, this`roundRobinIndex
      ensures Valid()
      ensures old(strands) == [] ==> s == None && stats == old(stats) && roundRobinIndex == old(roundRobinIndex)
      ensures old(strands) != [] ==>
                Selected(old(stats), index, s) && index == old(roundRobinIndex) % currentSize
                && roundRobinIndex == (old(roundRobinIndex) + 1) % 0x1_0000_0000_0000_0000
    {
      if strands == [] { return None, 0; }
      index := roundRobinIndex % currentSize;
      roundRobinIndex := (roundRobinIndex + 1) % WORD;
      UpdateStrandStats(index);
      s := Some(strands[index]);
    }

    /** The first strand is the fallback even when it is unhealthy; any other choice is healthy. */
    method LeastConnections() returns (s: Option<Strand>, index: nat)
      requires Valid()
      modifies this`stats
      ensures Valid()
      ensures old(strands) == [] ==> s == None && stats == old(stats)
      ensures old(strands) != [] ==>
                && Selected(old(stats), index, s)
                && (index > 0 ==> old(stats)[index].healthy && old(stats)[index].active < old(stats)[0].active)
                && (forall j :: 0 <= j < currentSize && (j == 0 || old(stats)[j].healthy) ==>
                      old(stats)[index].active <= old(stats)[j].active)
    {
      if strands == [] { return None, 0; }
      index := 0;
      var fewest := stats[0].active;
      for i := 1 to currentSize
        invariant index < currentSize && fewest == stats[index].active
        invariant index > 0 ==> stats[index].healthy && fewest < stats[0].active
        invariant forall j :: 0 <= j < i && (j == 0 || stats[j].healthy) ==> fewest <= stats[j].active
      {
        if stats[i].active < fewest && stats[i].healthy {
          fewest, index := stats[i].active, i;
        }
      }
      s := Some(strands[index]);
      UpdateStrandStats(index);
    }

    method ConsistentHash(key: nat) returns (s: Option<Strand>, ghost e: Entry)
      requires Valid()
      modifies this`stats
      ensures Valid()
      ensures old(strands) == [] ==> s == None && stats == old(stats)
      ensures old(strands) != [] ==> Owner(hash, currentSize, key, e) && Selected(old(stats), e.index, s)
    {
      if strands == [] {
        e := Entry(0, 0);
        return None, e;
      }
      var found := Locate(hash, currentSize, ring, key);
      e := found;
      UpdateStrandStats(found.index);
      s := Some(strands[found.index]);
    }

    /** `draw` is the random index, below the current size when there are strands. */
    method RandomStrand(draw: nat) returns (s: Option<Strand>)
      requires Valid() && (strands != [] ==> draw < currentSize)
      modifies this`stats
      ensures Valid()
      ensures old(strands) == [] ==> s == None && stats == old(stats)
      ensures old(strands) != [] ==> Selected(old(stats), draw, s)
    {
      if strands == [] { return None; }
      UpdateStrandStats(draw);
      s := Some(strands[draw]);
    }

    /** `draw` is the random number, below the total weight when that is positive. */
    method WeightedRoundRobin(draw: nat) returns (s: Option<Strand>, index: nat)
      requires Valid()
      requires WeightBefore(percent, stats, currentSize) > 0 ==> draw < WeightBefore(percent, stats, currentSize)
      modifies this`stats, this`roundRobinIndex
      ensures Valid()
      ensures old(strands) == [] ==> s == None
      ensures old(strands) != [] ==> Selected(old(stats), index, s)
      ensures old(WeightBefore(percent, stats, currentSize)) > 0 ==>
                && Selected(old(stats), index, s) && DrawSelects(percent, old(stats), draw, index)
                && roundRobinIndex == old(roundRobinIndex)
      ensures old(strands) != [] && old(WeightBefore(percent, stats, currentSize)) == 0 ==>
                index == old(roundRobinIndex) % currentSize && roundRobinIndex == (old(roundRobinIndex) + 1) % 0x1_0000_0000_0000_0000
    {
      s, index := None, 0;
      if strands == [] { return; }
      var totalWeight := 0;
      for i := 0 to currentSize
        invariant totalWeight == WeightBefore(percent, stats, i)
      {
        if stats[i].healthy { totalWeight := totalWeight + stats[i].Weight(percent); }
      }
      if totalWeight == 0 {
        s, index := RoundRobin();
        return;
      }
      var currentWeight := 0;
      for i := 0 to currentSize
        invariant currentWeight == WeightBefore(percent, stats, i) && stats == old(stats)
        invariant draw >= currentWeight
      {
        if stats[i].healthy {
          currentWeight := currentWeight + stats[i].Weight(percent);
          if draw < currentWeight {
            s, index := Some(strands[i]), i;
            UpdateStrandStats(i);
            return;
          }
        }
      }
      // The draw is below the total, so the fallback after the loop is never reached.
      assert false;
    }
  }
}
