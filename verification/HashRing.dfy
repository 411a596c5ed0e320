/** The consistent-hash ring: 100 virtual nodes per strand, sorted by hash and then by strand. */
module HashRing {
  import Sorting

  datatype Entry = Entry(hash: nat, index: nat)

  const NODES := 100

  /** The hash of virtual node `j` of strand `i`; any function will do. */
  type NodeHash = (nat, nat) -> nat

  predicate Less(a: Entry, b: Entry) {
    a.hash < b.hash || (a.hash == b.hash && a.index < b.index)
  }

  /** `e` belongs to the ring of the first `n` strands. */
  ghost predicate InRing(h: NodeHash, n: nat, e: Entry) {
    exists i: nat, j: nat :: i < n && j < NODES && e == Entry(h(i, j), i)
  }

  ghost predicate SortedRing(ring: seq<Entry>) {
    forall i, j :: 0 <= i < j < |ring| ==> !Less(ring[j], ring[i])
  }

  /** `ring` lists the virtual nodes of the first `n` strands in order. */
  ghost predicate IsRing(h: NodeHash, n: nat, ring: seq<Entry>) {
    && |ring| == NODES * n
    && SortedRing(ring)
    && forall e :: e in ring <==> InRing(h, n, e)
  }

  /** `e` is the least node of the ring at or after `key`, or the least node of all when there is none. */
  ghost predicate Owner(h: NodeHash, n: nat, key: nat, e: Entry) {
    && InRing(h, n, e)
    && (if exists f :: InRing(h, n, f) && f.hash >= key
        then e.hash >= key && forall f :: InRing(h, n, f) && f.hash >= key ==> !Less(f, e)
        else forall f :: InRing(h, n, f) ==> !Less(f, e))
  }

  lemma {:induction false} RingGrows(h: NodeHash, n: nat, m: nat, e: Entry)
    requires n <= m
    ensures InRing(h, n, e) ==> InRing(h, m, e)
    ensures InRing(h, m, e) && e.index < n ==> InRing(h, n, e)
  {
    if InRing(h, n, e) {
      var i: nat, j: nat :| i < n && j < NODES && e == Entry(h(i, j), i);
    }
    if InRing(h, m, e) && e.index < n {
      var i: nat, j: nat :| i < m && j < NODES && e == Entry(h(i, j), i);
    }
  }

  lemma {:induction false} OwnerIsUnique(h: NodeHash, n: nat, key: nat, e: Entry, f: Entry)
    requires Owner(h, n, key, e) && Owner(h, n, key, f)
    ensures e == f
  {
  }

  /**
   Few keys move: in a larger ring every key goes to the strand it had in the smaller one, or to a
   strand that the smaller one lacks. Wrap-around and equal hashes are included.
   */
  lemma {:induction false} FewKeysMove(h: NodeHash, n: nat, m: nat, key: nat, small: Entry, large: Entry)
    requires n <= m && Owner(h, n, key, small) && Owner(h, m, key, large)
    ensures large.index == small.index || large.index >= n
    ensures large.index < n ==> large == small
  {
    if large.index < n {
      RingGrows(h, n, m, large);
      RingGrows(h, n, m, small);
      forall f | InRing(h, n, f) ensures InRing(h, m, f) {
        RingGrows(h, n, m, f);
      }
      assert Owner(h, n, key, large);
    }
  }

  /** The owner of a key: the first node from the key on, or the first of all; of equal hashes the smallest index. */
  lemma {:induction false} OwnerExactly(h: NodeHash, n: nat, key: nat, e: Entry)
    requires Owner(h, n, key, e)
    ensures if exists f :: InRing(h, n, f) && f.hash >= key
            then e.hash >= key && forall f :: InRing(h, n, f) && f.hash >= key ==>
                   e.hash < f.hash || (e.hash == f.hash && e.index <= f.index)
            else forall f :: InRing(h, n, f) ==> e.hash < f.hash || (e.hash == f.hash && e.index <= f.index)
  {
  }

  // ---- Building and searching ----

  /** `std::sort` on pairs. */
  method Sort(entries: seq<Entry>) returns (ring: seq<Entry>)
    ensures SortedRing(ring) && multiset(ring) == multiset(entries)
  {
    ring := Sorting.Sort(Less, entries);
  }

  /** The entries emitted by the first `i` strands and the first `j` nodes of strand `i`. */
  ghost predicate Emitted(h: NodeHash, i: nat, j: nat, entries: seq<Entry>) {
    && |entries| == NODES * i + j
    && forall e :: e in entries <==> InRing(h, i, e) || NodeOf(h, i, j, e)
  }

  /** `e` is one of the first `n` virtual nodes of strand `i`. */
  ghost predicate NodeOf(h: NodeHash, i: nat, n: nat, e: Entry) {
    exists j: nat :: j < n && e == Entry(h(i, j), i)
  }

  lemma {:induction false} NextNode(h: NodeHash, i: nat, j: nat, entries: seq<Entry>)
    requires Emitted(h, i, j, entries)
    ensures Emitted(h, i, j + 1, entries + [Entry(h(i, j), i)])
  {
    var out := entries + [Entry(h(i, j), i)];
    forall e ensures e in out <==> InRing(h, i, e) || NodeOf(h, i, j + 1, e) {
      if NodeOf(h, i, j + 1, e) {
        var k: nat :| k < j + 1 && e == Entry(h(i, k), i);
        if k < j { assert NodeOf(h, i, j, e); }
      }
      if NodeOf(h, i, j, e) {
        var k: nat :| k < j && e == Entry(h(i, k), i);
        assert k < j + 1;
      }
      if e == Entry(h(i, j), i) { assert NodeOf(h, i, j + 1, e); }
    }
  }

  lemma {:induction false} NextStrand(h: NodeHash, i: nat, entries: seq<Entry>)
    requires Emitted(h, i, NODES, entries)
    ensures Emitted(h, i + 1, 0, entries)
  {
    forall e ensures e in entries <==> InRing(h, i + 1, e) || NodeOf(h, i + 1, 0, e) {
      RingGrows(h, i, i + 1, e);
      if InRing(h, i + 1, e) && e.index >= i {
        var k: nat, j: nat :| k < i + 1 && j < NODES && e == Entry(h(k, j), k);
        assert k == i && NodeOf(h, i, NODES, e);
      }
      if NodeOf(h, i, NODES, e) {
        var j: nat :| j < NODES && e == Entry(h(i, j), i);
        assert InRing(h, i + 1, e);
      }
    }
  }

  /** Rebuilds the ring of the first `n` strands. */
  method BuildRing(h: NodeHash, n: nat) returns (ring: seq<Entry>)
    ensures IsRing(h, n, ring) && |ring| == 100 * n
  {
    var entries: seq<Entry> := [];
    for i := 0 to n
      invariant Emitted(h, i, 0, entries)
    {
      for j := 0 to NODES
        invariant Emitted(h, i, j, entries)
      {
        NextNode(h, i, j, entries);
        entries := entries + [Entry(h(i, j), i)];
      }
      NextStrand(h, i, entries);
    }
    ring := Sort(entries);
    assert |ring| == |multiset(ring)| == |entries|;
    forall e ensures e in ring <==> InRing(h, n, e) {
      assert e in ring <==> e in multiset(ring);
      assert e in entries <==> e in multiset(entries);
    }
  }

  /** Binary search for the first entry whose hash is at least `key`. */
  method LowerBound(ring: seq<Entry>, key: nat) returns (k: nat)
    requires SortedRing(ring)
    ensures k <= |ring|
    ensures forall i :: 0 <= i < k ==> ring[i].hash < key
    ensures forall i :: k <= i < |ring| ==> ring[i].hash >= key
  {
    var lo, hi := 0, |ring|;
    while lo < hi
      invariant 0 <= lo <= hi <= |ring|
      invariant forall i :: 0 <= i < lo ==> ring[i].hash < key
      invariant forall i :: hi <= i < |ring| ==> ring[i].hash >= key
    {
      var mid := (lo + hi) / 2;
      if ring[mid].hash < key { lo := mid + 1; } else { hi := mid; }
    }
    k := lo;
  }

  /** The ring entry that serves `key`. */
  method Locate(ghost h: NodeHash, ghost n: nat, ring: seq<Entry>, key: nat) returns (e: Entry)
    requires IsRing(h, n, ring) && n > 0
    ensures Owner(h, n, key, e) && e.index < n
  {
    var k := LowerBound(ring, key);
    if k == |ring| { k := 0; }
    e := ring[k];
    assert e in ring;
    forall f | InRing(h, n, f) ensures exists i :: 0 <= i < |ring| && ring[i] == f {
      assert f in ring;
    }
    assert InRing(h, n, e);
    ghost var i: nat, j: nat :| i < n && j < NODES && e == Entry(h(i, j), i);
  }
}
