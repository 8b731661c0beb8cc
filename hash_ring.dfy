/**
 * Consistent hashing with virtual nodes: a ring of positions in a bounded
 * hash space, filled once with ten positions per cluster URL, and the
 * clockwise walk that picks the replica nodes of a key.
 */
module HashRing {
  import opened JavaLang
  import opened NavMap

  const MAX_NODES_NUMBER: int := 1000
  const VIRTUAL_NODES_NUMBER: int := 10
  const HASH_SPACE: int := MAX_NODES_NUMBER * VIRTUAL_NODES_NUMBER * 360

  datatype ConfigError =
    | TooManyNodes              // the IllegalArgumentException of the constructor
    | CollisionRetriesExhausted // the collision loop used up its retry budget

  datatype RingError =
    | EmptyRing                 // no entry at all: `firstEntry()` is null and `getKey()` throws
    | NotEnoughReplicaNodes     // the IllegalArgumentException of getReplicaNodeNumbers

  /** `Math.abs(h) % HASH_SPACE` in Java arithmetic. */
  function RingPosition(h: Int32): (p: Position)
    ensures -HASH_SPACE < p < HASH_SPACE
    ensures p >= 0 <==> h != INT_MIN
  {
    Rem(Abs(h), HASH_SPACE)
  }

  /** The one hash whose position is negative: `abs(MIN_VALUE)` stays negative. */
  lemma MinValuePosition()
    ensures RingPosition(INT_MIN) == -1883648
  {
  }

  /** `list.indexOf(u)`: the first index holding `u`, or -1. */
  function IndexOf(urls: seq<string>, u: string): (i: int)
    ensures -1 <= i < |urls|
    ensures i == -1 <==> u !in urls
    ensures i >= 0 ==> urls[i] == u && u !in urls[..i]
  {
    if urls == [] then -1
    else if urls[0] == u then 0
    else
      var j := IndexOf(urls[1..], u);
      assert urls == [urls[0]] + urls[1..];
      if j == -1 then -1
      else
        assert urls[..j + 1] == [urls[0]] + urls[1..][..j];
        j + 1
  }

  // ---------------------------------------------------------------------------
  // Distinct owners in walk order

  function Elems(s: seq<int>): set<int> {
    set x | x in s
  }

  predicate NoDup(s: seq<int>) {
    forall i, j :: 0 <= i < j < |s| ==> s[i] != s[j]
  }

  /** The distinct elements of `s` in the order of their first occurrence. */
  function Dedup(s: seq<int>): (d: seq<int>)
    ensures Elems(d) == Elems(s)
    ensures NoDup(d)
  {
    if s == [] then []
    else
      var d := Dedup(s[..|s| - 1]);
      var x := s[|s| - 1];
      assert s == s[..|s| - 1] + [x];
      assert Elems(s) == Elems(s[..|s| - 1]) + {x};
      if x in d then d
      else
        assert Elems(d + [x]) == Elems(d) + {x};
        d + [x]
  }

  /** The first `n` distinct elements met along `s` (all of them when there are fewer). */
  function FirstDistinct(s: seq<int>, n: nat): seq<int> {
    var d := Dedup(s);
    if n <= |d| then d[..n] else d
  }

  lemma {:induction false} NoDupCard(s: seq<int>)
    requires NoDup(s)
    ensures |Elems(s)| == |s|
    decreases |s|
  {
    if s != [] {
      var t := s[..|s| - 1];
      assert NoDup(t);
      NoDupCard(t);
      assert s == t + [s[|s| - 1]];
      assert Elems(s) == Elems(t) + {s[|s| - 1]};
      assert s[|s| - 1] !in Elems(t);
    }
  }

  /** Walking further never changes the owners already met, nor their order. */
  lemma {:induction false} DedupPrefix(s: seq<int>, t: seq<int>)
    ensures |Dedup(s)| <= |Dedup(s + t)| && Dedup(s + t)[..|Dedup(s)|] == Dedup(s)
    decreases |t|
  {
    if t == [] {
      assert s + t == s;
    } else {
      var t' := t[..|t| - 1];
      DedupPrefix(s, t');
      assert (s + t)[..|s + t| - 1] == s + t';
    }
  }

  /** Walking over owners already met adds nothing. */
  lemma {:induction false} DedupAbsorbs(s: seq<int>, t: seq<int>)
    requires Elems(t) <= Elems(s)
    ensures Dedup(s + t) == Dedup(s)
    decreases |t|
  {
    if t == [] {
      assert s + t == s;
    } else {
      var t' := t[..|t| - 1];
      assert t == t' + [t[|t| - 1]];
      assert Elems(t') <= Elems(t);
      DedupAbsorbs(s, t');
      assert (s + t)[..|s + t| - 1] == s + t';
      assert t[|t| - 1] in Elems(s);
    }
  }

  /** `FirstDistinct(s, n)` holds `n` distinct owners, or every owner of `s` when there are fewer. */
  lemma FirstDistinctCard(s: seq<int>, n: nat)
    ensures Elems(FirstDistinct(s, n)) <= Elems(s)
    ensures |Elems(FirstDistinct(s, n))| == if n <= |Elems(s)| then n else |Elems(s)|
  {
    var d := Dedup(s);
    NoDupCard(d);
    var f := FirstDistinct(s, n);
    assert NoDup(f);
    NoDupCard(f);
  }

  /** Once `n` owners have been met, the rest of the walk does not matter. */
  lemma FirstDistinctPrefix(s: seq<int>, t: seq<int>, n: nat)
    requires n <= |Elems(s)|
    ensures FirstDistinct(s + t, n) == FirstDistinct(s, n)
  {
    NoDupCard(Dedup(s));
    DedupPrefix(s, t);
  }

  lemma ElemsConcat(a: seq<int>, b: seq<int>)
    ensures Elems(a + b) == Elems(a) + Elems(b)
  {
  }

  // ---------------------------------------------------------------------------
  // The ring

  /** The node numbers on the ring, one per virtual node. */
  function Owners(ring: seq<(int, int)>): set<int> {
    Elems(Values(ring))
  }

  /**
   * The owners in the order the replica walk meets them: from the ceiling
   * entry of `position` to the end of the ring, then from its start up to
   * the ceiling entry. With no ceiling entry the walk starts at the first one.
   */
  function ReplicaWalk(ring: seq<(int, int)>, position: int): seq<int> {
    var c := CeilingIndex(ring, position);
    var start := if c < |ring| then c else 0;
    Values(ring[start..]) + Values(ring[..start])
  }

  /** `n` copies of the node number `node`. */
  function Copies(node: int, n: nat): multiset<int> {
    multiset{}[node := n]
  }

  lemma CopiesStep(node: int, n: nat)
    ensures Copies(node, n + 1) == Copies(node, n) + multiset{node}
  {
  }

  /** The node numbers the first `j` URLs contribute: ten copies of `indexOf(url)` per URL. */
  function ExpectedOwners(urls: seq<string>, j: nat): multiset<int>
    requires j <= |urls|
  {
    if j == 0 then multiset{}
    else ExpectedOwners(urls, j - 1) + Copies(IndexOf(urls, urls[j - 1]), VIRTUAL_NODES_NUMBER)
  }

  /** `nodesNumberToUrlMap` after the constructor has visited the first `j` URLs. */
  function NodeUrls(urls: seq<string>, j: nat): map<int, string>
    requires j <= |urls|
  {
    if j == 0 then map[] else NodeUrls(urls, j - 1)[IndexOf(urls, urls[j - 1]) := urls[j - 1]]
  }

  predicate InHashSpace(ring: seq<(int, int)>) {
    forall i :: 0 <= i < |ring| ==> -HASH_SPACE < ring[i].0 < HASH_SPACE
  }

  /** The node numbers of the first `j` URLs: `indexOf` of each. */
  function NodeNumbers(urls: seq<string>, j: nat): set<int>
    requires j <= |urls|
  {
    if j == 0 then {} else NodeNumbers(urls, j - 1) + {IndexOf(urls, urls[j - 1])}
  }

  lemma {:induction false} ExpectedOwnersMembers(urls: seq<string>, j: nat)
    requires j <= |urls|
    ensures forall x :: x in ExpectedOwners(urls, j) <==> x in NodeNumbers(urls, j)
  {
    if j > 0 {
      ExpectedOwnersMembers(urls, j - 1);
    }
  }

  /** With distinct URLs, the node numbers of the first `j` URLs are exactly `0 .. j - 1`. */
  lemma {:induction false} DistinctNodeNumbers(urls: seq<string>, j: nat)
    requires j <= |urls|
    requires forall a, b :: 0 <= a < b < |urls| ==> urls[a] != urls[b]
    ensures forall k :: k in NodeNumbers(urls, j) <==> 0 <= k < j
    ensures |NodeNumbers(urls, j)| == j
  {
    if j > 0 {
      DistinctNodeNumbers(urls, j - 1);
      var i := IndexOf(urls, urls[j - 1]);
      assert urls[i] == urls[j - 1];
      assert i == j - 1;
    }
  }

  /** Every URL's node number maps back to that URL, and nothing else is in the map. */
  lemma {:induction false} NodeUrlsMapsNumbersToUrls(urls: seq<string>, j: nat)
    requires j <= |urls|
    ensures forall k :: k in NodeUrls(urls, j) ==> 0 <= k < |urls| && NodeUrls(urls, j)[k] == urls[k]
    ensures forall k :: k in NodeUrls(urls, j) <==> k in NodeNumbers(urls, j)
  {
    if j > 0 {
      NodeUrlsMapsNumbersToUrls(urls, j - 1);
    }
  }

  lemma OwnersAreExpected(ring: seq<(int, int)>, urls: seq<string>)
    requires multiset(Values(ring)) == ExpectedOwners(urls, |urls|)
    ensures Owners(ring) == NodeNumbers(urls, |urls|)
  {
    ExpectedOwnersMembers(urls, |urls|);
    var vs := Values(ring);
    var owners := ExpectedOwners(urls, |urls|);
    forall x | x in Owners(ring) ensures x in NodeNumbers(urls, |urls|) {
      assert x in multiset(vs);
      assert x in owners;
    }
    forall x | x in NodeNumbers(urls, |urls|) ensures x in Owners(ring) {
      assert x in owners;
      assert x in multiset(vs);
      assert x in vs;
    }
  }

  /**
   * A ring holding ten copies of every URL's node number is owned exactly by
   * the URLs' first indices; with distinct URLs that is one owner per URL,
   * numbered from 0.
   */
  lemma OwnersOfFilledRing(ring: seq<(int, int)>, urls: seq<string>)
    requires multiset(Values(ring)) == ExpectedOwners(urls, |urls|)
    ensures Owners(ring) == NodeNumbers(urls, |urls|)
    ensures (forall a, b :: 0 <= a < b < |urls| ==> urls[a] != urls[b]) ==>
              (forall k :: k in Owners(ring) <==> 0 <= k < |urls|) && |Owners(ring)| == |urls|
  {
    OwnersAreExpected(ring, urls);
    if forall a, b :: 0 <= a < b < |urls| ==> urls[a] != urls[b] {
      DistinctNodeNumbers(urls, |urls|);
    }
  }

  /**
   * One replica-collection pass of getReplicaNodeNumbers: adds the owners
   * along `owners` to `replicas`, stopping as soon as it holds `from` of them.
   * `seen` is the walk that produced `replicas`.
   */
  method AddReplicaNodePositions(replicas: set<int>, owners: seq<int>, from: int, ghost seen: seq<int>)
    returns (r: set<int>)
    ensures replicas <= r <= replicas + Elems(owners)
    ensures |owners| > 0 ==> owners[0] in r
    ensures r == replicas + Elems(owners) || |r| == from
    ensures replicas == Elems(seen) && |replicas| < from ==> r == Elems(FirstDistinct(seen + owners, from))
  {
    r := replicas;
    var i := 0;
    while i < |owners|
      invariant 0 <= i <= |owners|
      invariant r == replicas + Elems(owners[..i])
      invariant i > 0 ==> owners[0] in r && |r| != from
      invariant replicas == Elems(seen) && |replicas| < from ==> |r| < from
    {
      ElemsSnoc(owners[..i], owners[i]);
      assert owners[..i + 1] == owners[..i] + [owners[i]];
      r := r + {owners[i]};
      i := i + 1;
      if |r| == from {
        break;
      }
    }
    if replicas == Elems(seen) && |replicas| < from {
      EnoughOrAll(seen, owners, i, from, r);
    }
  }

  lemma ElemsSnoc(s: seq<int>, x: int)
    ensures Elems(s + [x]) == Elems(s) + {x}
  {
  }

  /** The two ways a pass ends: `from` owners met after `i` steps, or the whole walk taken. */
  lemma EnoughOrAll(seen: seq<int>, owners: seq<int>, i: nat, from: int, r: set<int>)
    requires i <= |owners|
    requires r == Elems(seen) + Elems(owners[..i])
    requires |r| == from || (i == |owners| && |r| < from)
    requires |Elems(seen)| < from
    ensures r == Elems(FirstDistinct(seen + owners, from))
  {
    var walked := seen + owners[..i];
    ElemsConcat(seen, owners[..i]);
    assert seen + owners == walked + owners[i..];
    NoDupCard(Dedup(walked));
    if |r| == from {
      FirstDistinctPrefix(walked, owners[i..], from);
    } else {
      assert owners[i..] == [];
      assert seen + owners == walked;
    }
  }

  /** Inserting a free position of the hash space keeps a ring ordered and in range, and adds one owner. */
  lemma InsertFreshPosition(ring: seq<(int, int)>, position: int, node: int)
    requires Sorted(ring) && InHashSpace(ring) && !ContainsKey(ring, position)
    requires -HASH_SPACE < position < HASH_SPACE
    ensures Sorted(Put(ring, position, node)) && InHashSpace(Put(ring, position, node))
    ensures |Put(ring, position, node)| == |ring| + 1
    ensures multiset(Values(Put(ring, position, node))) == multiset(Values(ring)) + multiset{node}
  {
    PutEntries(ring, position, node);
    PutNewKey(ring, position, node);
    var r := Put(ring, position, node);
    forall i | 0 <= i < |r| ensures -HASH_SPACE < r[i].0 < HASH_SPACE {
      if r[i] != (position, node) {
        var j :| 0 <= j < |ring| && ring[j] == r[i];
      }
    }
  }

  lemma NextUrlOwners(urls: seq<string>, j: nat, before: multiset<int>, after: multiset<int>)
    requires j < |urls| && before == ExpectedOwners(urls, j)
    requires after == before + Copies(IndexOf(urls, urls[j]), VIRTUAL_NODES_NUMBER)
    ensures after == ExpectedOwners(urls, j + 1)
  {
  }

  /** The walk from entry `c` meets every owner of the ring. */
  lemma WalkCoversRing(ring: seq<(int, int)>, c: nat)
    requires c <= |ring|
    ensures Values(ring) == Values(ring[..c]) + Values(ring[c..])
    ensures Elems(Values(ring[c..]) + Values(ring[..c])) == Owners(ring)
  {
    assert ring == ring[..c] + ring[c..];
    ValuesConcat(ring[..c], ring[c..]);
    ElemsConcat(Values(ring[c..]), Values(ring[..c]));
    ElemsConcat(Values(ring[..c]), Values(ring[c..]));
  }

  /** When the tail pass comes up short, the pass over the whole ring completes the walk. */
  lemma SecondPassSeesWholeWalk(tail: seq<int>, head: seq<int>, from: int)
    requires |Elems(tail)| < from
    ensures Elems(FirstDistinct(tail + (head + tail), from)) == Elems(FirstDistinct(tail + head, from))
    ensures |Elems(FirstDistinct(tail + head, from))| == if from <= |Elems(tail + head)| then from else |Elems(tail + head)|
  {
    assert tail + (head + tail) == (tail + head) + tail;
    ElemsConcat(tail, head);
    DedupAbsorbs(tail + head, tail);
    FirstDistinctCard(tail + head, from);
  }

  /** When the tail pass finds `from` owners, they are the first `from` of the whole walk. */
  lemma FirstPassSuffices(tail: seq<int>, head: seq<int>, from: int)
    requires from >= 1
    requires |Elems(FirstDistinct([] + tail, from))| >= from
    ensures FirstDistinct([] + tail, from) == FirstDistinct(tail + head, from)
    ensures |Elems(FirstDistinct(tail + head, from))| == from <= |Elems(tail + head)|
  {
    assert [] + tail == tail;
    FirstDistinctCard(tail, from);
    assert from <= |Elems(tail)|;
    FirstDistinctPrefix(tail, head, from);
    ElemsConcat(tail, head);
    SubsetCard(Elems(tail), Elems(tail + head));
  }

  // ---------------------------------------------------------------------------
  // Where the fill puts the virtual nodes

  /** A place on the ring. */
  type Position = p: int | -HASH_SPACE < p < HASH_SPACE

  /** The ring position of the salted key of virtual node `i` of `url`, given the counter. */
  type KeyHash = (string, int, Int32) -> Position

  /**
   * `calculateHashRingPosition(url + i + counter)`: the position of
   * `murmur3` of the URL followed by the node index and the counter in decimal.
   */
  function SaltedKeyHash(murmur3: string -> Int32): KeyHash {
    (url: string, i: int, counter: Int32) => RingPosition(murmur3(url + IntToString(i) + IntToString(counter)))
  }

  /**
   * Virtual node `i` of `url`, salted with `counter`, for the key hash `hash`
   * (the service's is `SaltedKeyHash(murmur3)`).
   */
  function Salted(hash: KeyHash, url: string, i: int, counter: Int32): (p: int)
    ensures -HASH_SPACE < p < HASH_SPACE
  {
    hash(url, i, counter)
  }

  /** `c++` on a Java `int`: `MAX_VALUE` wraps to `MIN_VALUE`. */
  function Increment(c: Int32): Int32 {
    if c == INT_MAX then INT_MIN else c + 1
  }

  /** The increment is 32-bit two's complement addition of 1. */
  lemma IncrementWraps(c: Int32)
    ensures Increment(c) == Wrap32(c + 1)
  {
    if c == INT_MAX {
      Wrap32Congruent(c + 1, INT_MIN);
    }
  }

  /** The collision counter after `k` post-increments from `c`. */
  function CounterAfter(c: Int32, k: nat): Int32 {
    if k == 0 then c else Increment(CounterAfter(c, k - 1))
  }

  /** `k` post-increments of the counter add `k` in 32-bit two's complement. */
  lemma {:induction false} CounterAfterWraps(c: Int32, k: nat)
    ensures CounterAfter(c, k) == Wrap32(c + k)
  {
    if k > 0 {
      CounterAfterWraps(c, k - 1);
      var w: int := Wrap32(c + k - 1);
      assert (c + k - 1 - w) % 0x1_0000_0000 == 0;
      IncrementWraps(w);
      Wrap32Congruent(w + 1, c + k);
    }
  }

  /** Arguments congruent modulo 2^32 wrap to the same `int`. */
  lemma Wrap32Congruent(x: int, y: int)
    requires (x - y) % 0x1_0000_0000 == 0
    ensures Wrap32(x) == Wrap32(y)
  {
    var m := 0x1_0000_0000;
    var q := (x - y) / m;
    assert x - y == q * m;
    assert x - INT_MIN == (y - INT_MIN) + q * m;
    assert (x - INT_MIN) % m == (y - INT_MIN) % m;
  }

  /**
   * Candidate `k` of the collision loop for virtual node `i` of `url`, the
   * counter standing at `c` on entry: candidate 0 is hashed with `c`, and
   * retry `k` with the counter as the `k - 1` earlier retries left it, read
   * before its increment (so retry 1 repeats candidate 0).
   */
  function Probe(hash: KeyHash, url: string, i: int, c: Int32, k: nat): int {
    Salted(hash, url, i, if k == 0 then c else CounterAfter(c, k - 1))
  }

  /** The first `n` candidates of the collision loop are all taken in `ring`. */
  ghost predicate AllTaken(ring: seq<(int, int)>, hash: KeyHash, url: string, i: int, c: Int32, n: nat) {
    forall k :: 0 <= k < n ==> ContainsKey(ring, Probe(hash, url, i, c, k))
  }

  /** One more taken candidate extends the run of taken candidates. */
  lemma TakenStep(ring: seq<(int, int)>, hash: KeyHash, url: string, i: int, c: Int32, n: nat)
    requires AllTaken(ring, hash, url, i, c, n) && ContainsKey(ring, Probe(hash, url, i, c, n))
    ensures AllTaken(ring, hash, url, i, c, n + 1)
  {
  }

  /**
   * Where the collision loop stops after `tries` retries: on the first free
   * candidate, or with the budget spent and every candidate so far taken.
   */
  lemma ProbeSearchOutcome(ring: seq<(int, int)>, hash: KeyHash, url: string, i: int, c: Int32,
                           budget: nat, tries: nat, found: bool, position: int, counterAfter: Int32, budgetAfter: nat)
    requires tries + budgetAfter == budget
    requires position == Probe(hash, url, i, c, tries) && counterAfter == CounterAfter(c, tries)
    requires AllTaken(ring, hash, url, i, c, tries)
    requires found == !ContainsKey(ring, position)
    requires !found ==> budgetAfter == 0
    ensures found ==>
              && position == Probe(hash, url, i, c, budget - budgetAfter)
              && counterAfter == CounterAfter(c, budget - budgetAfter)
              && !ContainsKey(ring, position)
              && AllTaken(ring, hash, url, i, c, budget - budgetAfter)
    ensures !found ==> budgetAfter == 0 && AllTaken(ring, hash, url, i, c, budget + 1)
    ensures !ContainsKey(ring, Probe(hash, url, i, c, 0)) ==> found && budgetAfter == budget
    ensures found ==> SearchFor(ring, hash, url, i, c, budget) == Free(position, counterAfter, budgetAfter)
    ensures !found ==> SearchFor(ring, hash, url, i, c, budget) == Exhausted
  {
    SearchAfterTaken(ring, hash, url, i, c, budget, tries);
    if !found {
      TakenStep(ring, hash, url, i, c, tries);
      assert ContainsKey(ring, Probe(hash, url, i, c, 0));
    } else if tries > 0 {
      assert ContainsKey(ring, Probe(hash, url, i, c, 0));
    }
  }

  /** Retry `n + 1` is hashed with the counter as the first `n` retries left it, and then increments it. */
  lemma ProbeStep(hash: KeyHash, url: string, i: int, c: Int32, n: nat)
    ensures Probe(hash, url, i, c, n + 1) == Salted(hash, url, i, CounterAfter(c, n))
  {
  }

  /** `p` is the position of one of the ten virtual nodes of `url`, for some value of the counter. */
  ghost predicate IsSaltedPosition(hash: KeyHash, url: string, p: int) {
    exists i: int, c: Int32 :: 0 <= i < VIRTUAL_NODES_NUMBER && p == Salted(hash, url, i, c)
  }

  /** Every entry of the ring maps a position of its owner's URL to that owner's number. */
  ghost predicate Placed(ring: seq<(int, int)>, urls: seq<string>, hash: KeyHash) {
    forall k :: 0 <= k < |ring| ==> 0 <= ring[k].1 < |urls| && IsSaltedPosition(hash, urls[ring[k].1], ring[k].0)
  }

  /**
   * With the service's key hash, a placed entry sits where `calculateHashRingPosition`
   * puts `url + i + collisionCounter` for one of the ten indexes and some counter value.
   */
  lemma PlacedByMurmur3(ring: seq<(int, int)>, urls: seq<string>, murmur3: string -> Int32)
    requires Placed(ring, urls, SaltedKeyHash(murmur3))
    ensures forall k :: 0 <= k < |ring| ==>
              0 <= ring[k].1 < |urls| &&
              exists i: int, c: Int32 :: 0 <= i < VIRTUAL_NODES_NUMBER &&
                ring[k].0 == RingPosition(murmur3(urls[ring[k].1] + IntToString(i) + IntToString(c)))
  {
    forall k | 0 <= k < |ring|
      ensures 0 <= ring[k].1 < |urls|
      ensures exists i: int, c: Int32 :: 0 <= i < VIRTUAL_NODES_NUMBER &&
                ring[k].0 == RingPosition(murmur3(urls[ring[k].1] + IntToString(i) + IntToString(c)))
    {
      var i: int, c: Int32 :| 0 <= i < VIRTUAL_NODES_NUMBER && ring[k].0 == Salted(SaltedKeyHash(murmur3), urls[ring[k].1], i, c);
      assert ring[k].0 == RingPosition(murmur3(urls[ring[k].1] + IntToString(i) + IntToString(c)));
    }
  }

  /** Every candidate of the collision loop for one of the ten virtual nodes is a salted position of the URL. */
  lemma ProbeIsSalted(hash: KeyHash, url: string, i: int, c: Int32, k: nat)
    requires 0 <= i < VIRTUAL_NODES_NUMBER
    ensures IsSaltedPosition(hash, url, Probe(hash, url, i, c, k))
  {
    var counter := if k == 0 then c else CounterAfter(c, k - 1);
    assert Probe(hash, url, i, c, k) == Salted(hash, url, i, counter);
  }

  /** Storing a salted position of `urls[node]` under `node` keeps every entry placed. */
  lemma InsertPlaced(ring: seq<(int, int)>, urls: seq<string>, hash: KeyHash, position: int, node: int)
    requires Sorted(ring) && Placed(ring, urls, hash)
    requires 0 <= node < |urls| && IsSaltedPosition(hash, urls[node], position)
    ensures Placed(Put(ring, position, node), urls, hash)
  {
    PutEntries(ring, position, node);
    var r := Put(ring, position, node);
    forall m | 0 <= m < |r|
      ensures 0 <= r[m].1 < |urls| && IsSaltedPosition(hash, urls[r[m].1], r[m].0)
    {
      if r[m] != (position, node) {
        var j :| 0 <= j < |ring| && ring[j] == r[m];
      }
    }
  }

  lemma SubsetCard(a: set<int>, b: set<int>)
    requires a <= b
    ensures |a| <= |b|
  {
    assert b == a + (b - a);
  }

  /** How the collision loop for one virtual node ends. */
  datatype SearchResult =
    | Free(position: int, counter: Int32, budget: nat)  // the free position, the counter and the budget left
    | Exhausted                                         // the budget ran out on a taken position

  /**
   * The collision loop from the candidate `position`, with the counter at
   * `counter`: stops on the first free candidate; each retry hashes with the
   * counter, post-increments it and spends one unit of `budget`.
   */
  function Search(ring: seq<(int, int)>, hash: KeyHash, url: string, i: int,
                  position: int, counter: Int32, budget: nat): SearchResult
    decreases budget
  {
    if !ContainsKey(ring, position) then Free(position, counter, budget)
    else if budget == 0 then Exhausted
    else Search(ring, hash, url, i, Salted(hash, url, i, counter), Increment(counter), budget - 1)
  }

  /** The loop of virtual node `i` of `url`, whose first candidate hashes with `counter`. */
  function SearchFor(ring: seq<(int, int)>, hash: KeyHash, url: string, i: int, counter: Int32, budget: nat): SearchResult {
    Search(ring, hash, url, i, Salted(hash, url, i, counter), counter, budget)
  }

  /** Where a run of the fill ends: the ring, the counter and the budget left, or stuck on a search that ran dry. */
  datatype FillResult =
    | Filled(ring: seq<(int, int)>, counter: Int32, budget: nat)
    | Stuck

  /** A way to add a position and its node number to the ring. */
  type Insert = (seq<(int, int)>, int, int) -> seq<(int, int)>

  /** `virtualNodes.put(position, nodeNumber)`. */
  function RingPut(): Insert {
    (ring: seq<(int, int)>, position: int, node: int) => Put(ring, position, node)
  }

  /**
   * Virtual nodes `i ..` of `url`, each stored under node number `node` with
   * `put` (the fill uses `RingPut()`; the budget lemmas below hold for any `put`).
   */
  function FillUrlFrom(ring: seq<(int, int)>, hash: KeyHash, put: Insert, url: string, node: int, i: nat,
                       counter: Int32, budget: nat): FillResult
    requires i <= VIRTUAL_NODES_NUMBER
    decreases VIRTUAL_NODES_NUMBER - i
  {
    if i == VIRTUAL_NODES_NUMBER then Filled(ring, counter, budget)
    else
      match SearchFor(ring, hash, url, i, counter, budget)
      case Exhausted => Stuck
      case Free(position, c, b) =>
        FillUrlFrom(put(ring, position, node), hash, put, url, node, i + 1, c, b)
  }

  /** The ten virtual nodes of one URL: from a ring, a counter and a budget to where that leaves them. */
  type UrlFill = (seq<(int, int)>, string, Int32, nat) -> FillResult

  /** The ten virtual nodes of `url`, stored with `put` under the node number `urls.indexOf(url)`. */
  function FillUrlStep(urls: seq<string>, hash: KeyHash, put: Insert): UrlFill {
    (ring: seq<(int, int)>, url: string, counter: Int32, budget: nat) =>
      FillUrlFrom(ring, hash, put, url, IndexOf(urls, url), 0, counter, budget)
  }

  /** URLs `j ..` of the fill, each one's virtual nodes added by `step`. */
  function FillFrom(ring: seq<(int, int)>, urls: seq<string>, step: UrlFill, j: nat,
                    counter: Int32, budget: nat): FillResult
    requires j <= |urls|
    decreases |urls| - j
  {
    if j == |urls| then Filled(ring, counter, budget)
    else
      match step(ring, urls[j], counter, budget)
      case Stuck => Stuck
      case Filled(r, c, b) => FillFrom(r, urls, step, j + 1, c, b)
  }

  /** The whole fill, as the constructor starts it: an empty ring and the counter at 1. */
  function Fill(urls: seq<string>, hash: KeyHash, budget: nat): FillResult {
    FillFrom([], urls, FillUrlStep(urls, hash, RingPut()), 0, 1, budget)
  }

  /** A search that ends on a free position ends on the same one with a larger budget, and the surplus is left over. */
  lemma {:induction false} SearchMoreBudget(ring: seq<(int, int)>, hash: KeyHash, url: string, i: int,
                                            position: int, counter: Int32, budget: nat, larger: nat)
    requires budget <= larger && Search(ring, hash, url, i, position, counter, budget).Free?
    ensures var s := Search(ring, hash, url, i, position, counter, budget);
      Search(ring, hash, url, i, position, counter, larger) == Free(s.position, s.counter, s.budget + (larger - budget))
    decreases budget
  {
    if ContainsKey(ring, position) {
      var next := Salted(hash, url, i, counter);
      assert Search(ring, hash, url, i, position, counter, budget) == Search(ring, hash, url, i, next, Increment(counter), budget - 1);
      assert Search(ring, hash, url, i, position, counter, larger) == Search(ring, hash, url, i, next, Increment(counter), larger - 1);
      SearchMoreBudget(ring, hash, url, i, next, Increment(counter), budget - 1, larger - 1);
    }
  }

  /** One virtual node of a fill that finishes: its search succeeds with either budget, on the same position and counter. */
  lemma FillUrlUnfold(ring: seq<(int, int)>, hash: KeyHash, put: Insert, url: string, node: int, i: nat,
                      counter: Int32, budget: nat, larger: nat)
    requires i < VIRTUAL_NODES_NUMBER && budget <= larger
    requires FillUrlFrom(ring, hash, put, url, node, i, counter, budget).Filled?
    ensures var s := SearchFor(ring, hash, url, i, counter, budget);
      && s.Free?
      && var next := put(ring, s.position, node);
      && FillUrlFrom(ring, hash, put, url, node, i, counter, budget) == FillUrlFrom(next, hash, put, url, node, i + 1, s.counter, s.budget)
      && FillUrlFrom(ring, hash, put, url, node, i, counter, larger) ==
         FillUrlFrom(next, hash, put, url, node, i + 1, s.counter, s.budget + (larger - budget))
  {
    var s := SearchFor(ring, hash, url, i, counter, budget);
    SearchMoreBudget(ring, hash, url, i, Salted(hash, url, i, counter), counter, budget, larger);
    assert SearchFor(ring, hash, url, i, counter, larger) == Free(s.position, s.counter, s.budget + (larger - budget));
  }

  lemma {:induction false} FillUrlMoreBudget(ring: seq<(int, int)>, hash: KeyHash, put: Insert, url: string, node: int, i: nat,
                                             counter: Int32, budget: nat, larger: nat)
    requires i <= VIRTUAL_NODES_NUMBER && budget <= larger
    requires FillUrlFrom(ring, hash, put, url, node, i, counter, budget).Filled?
    ensures var f := FillUrlFrom(ring, hash, put, url, node, i, counter, budget);
      var g := FillUrlFrom(ring, hash, put, url, node, i, counter, larger);
      g.Filled? && g.ring == f.ring && g.counter == f.counter && g.budget == f.budget + (larger - budget)
    decreases VIRTUAL_NODES_NUMBER - i
  {
    if i < VIRTUAL_NODES_NUMBER {
      FillUrlUnfold(ring, hash, put, url, node, i, counter, budget, larger);
      var s := SearchFor(ring, hash, url, i, counter, budget);
      FillUrlMoreBudget(put(ring, s.position, node), hash, put, url, node, i + 1, s.counter, s.budget, s.budget + (larger - budget));
    } else {
      assert FillUrlFrom(ring, hash, put, url, node, i, counter, budget) == Filled(ring, counter, budget);
      assert FillUrlFrom(ring, hash, put, url, node, i, counter, larger) == Filled(ring, counter, larger);
    }
  }

  /** A step that finishes with some budget finishes the same way with a larger one, keeping the surplus. */
  ghost predicate GrowsWithBudget(step: UrlFill) {
    forall ring: seq<(int, int)>, url: string, counter: Int32, budget: nat, larger: nat ::
      budget <= larger && step(ring, url, counter, budget).Filled? ==>
        step(ring, url, counter, larger) ==
        Filled(step(ring, url, counter, budget).ring, step(ring, url, counter, budget).counter,
               step(ring, url, counter, budget).budget + (larger - budget))
  }

  /** Adding one URL's virtual nodes only ever uses the budget up, whatever `put` does. */
  lemma FillUrlStepGrows(urls: seq<string>, hash: KeyHash, put: Insert)
    ensures GrowsWithBudget(FillUrlStep(urls, hash, put))
  {
    var step := FillUrlStep(urls, hash, put);
    forall ring: seq<(int, int)>, url: string, counter: Int32, budget: nat, larger: nat | budget <= larger && step(ring, url, counter, budget).Filled?
      ensures step(ring, url, counter, larger) ==
              Filled(step(ring, url, counter, budget).ring, step(ring, url, counter, budget).counter,
                     step(ring, url, counter, budget).budget + (larger - budget))
    {
      FillUrlMoreBudget(ring, hash, put, url, IndexOf(urls, url), 0, counter, budget, larger);
    }
  }

  lemma {:induction false} FillFromMoreBudget(ring: seq<(int, int)>, urls: seq<string>, step: UrlFill, j: nat,
                                              counter: Int32, budget: nat, larger: nat)
    requires j <= |urls| && budget <= larger && GrowsWithBudget(step)
    requires FillFrom(ring, urls, step, j, counter, budget).Filled?
    ensures var f := FillFrom(ring, urls, step, j, counter, budget);
      var g := FillFrom(ring, urls, step, j, counter, larger);
      g.Filled? && g.ring == f.ring && g.counter == f.counter && g.budget == f.budget + (larger - budget)
    decreases |urls| - j
  {
    if j < |urls| {
      var u := step(ring, urls[j], counter, budget);
      assert step(ring, urls[j], counter, larger) == Filled(u.ring, u.counter, u.budget + (larger - budget));
      FillFromMoreBudget(u.ring, urls, step, j + 1, u.counter, u.budget, u.budget + (larger - budget));
    }
  }

  /**
   * The retry budget only decides whether the fill finishes, never where
   * it puts a position: a fill that finishes with some budget finishes on
   * the same ring with any larger budget. So running out of retries is the
   * only way it fails.
   */
  lemma FillIsBudgetIndependent(urls: seq<string>, hash: KeyHash, budget: nat, larger: nat)
    requires budget <= larger && Fill(urls, hash, budget).Filled?
    ensures Fill(urls, hash, larger).Filled?
    ensures Fill(urls, hash, larger).ring == Fill(urls, hash, budget).ring
  {
    FillUrlStepGrows(urls, hash, RingPut());
    FillFromMoreBudget([], urls, FillUrlStep(urls, hash, RingPut()), 0, 1, budget, larger);
  }

  /** After `tries` taken candidates the loop goes on from candidate `tries`, with the counter and budget the retries left. */
  lemma {:induction false} SearchAfterTaken(ring: seq<(int, int)>, hash: KeyHash, url: string, i: int, c: Int32,
                                            budget: nat, tries: nat)
    requires tries <= budget && AllTaken(ring, hash, url, i, c, tries)
    ensures SearchFor(ring, hash, url, i, c, budget) ==
            Search(ring, hash, url, i, Probe(hash, url, i, c, tries), CounterAfter(c, tries), budget - tries)
    decreases tries
  {
    if tries > 0 {
      SearchAfterTaken(ring, hash, url, i, c, budget, tries - 1);
      var position := Probe(hash, url, i, c, tries - 1);
      var counter := CounterAfter(c, tries - 1);
      assert ContainsKey(ring, position);
      ProbeStep(hash, url, i, c, tries - 1);
      var next := Salted(hash, url, i, counter);
      var rest: nat := budget - tries;
      assert Probe(hash, url, i, c, tries) == next;
      assert CounterAfter(c, tries) == Increment(counter);
      assert Search(ring, hash, url, i, position, counter, rest + 1) ==
             Search(ring, hash, url, i, next, Increment(counter), rest);
    } else {
      assert Probe(hash, url, i, c, 0) == Salted(hash, url, i, c);
      assert CounterAfter(c, 0) == c;
    }
  }

  /** With a free first candidate the loop takes it at once, whatever the budget. */
  lemma FreeFirstCandidate(ring: seq<(int, int)>, hash: KeyHash, url: string, i: int, counter: Int32, budget: nat)
    requires !ContainsKey(ring, Salted(hash, url, i, counter))
    ensures SearchFor(ring, hash, url, i, counter, budget) == Free(Salted(hash, url, i, counter), counter, budget)
  {
  }

  /**
   * The collision loop of `fillVirtualNodes` for virtual node `i` of `url`:
   * hashes `url + i + counter` until the position is free, post-incrementing
   * the counter on every retry. Each retry costs one unit of `budget`.
   * The position found is the first free candidate, after as many retries
   * as the budget went down by; `found` is false only when the first
   * `budget + 1` candidates were all taken.
   */
  method FindFreePosition(ring: seq<(int, int)>, hash: KeyHash, url: string, i: int, counter: Int32, budget: nat)
    returns (found: bool, position: int, counterAfter: Int32, budgetAfter: nat)
    ensures budgetAfter <= budget
    ensures found ==>
              && position == Probe(hash, url, i, counter, budget - budgetAfter)
              && counterAfter == CounterAfter(counter, budget - budgetAfter)
              && !ContainsKey(ring, position)
              && AllTaken(ring, hash, url, i, counter, budget - budgetAfter)
    ensures !found ==> budgetAfter == 0 && AllTaken(ring, hash, url, i, counter, budget + 1)
    ensures !ContainsKey(ring, Probe(hash, url, i, counter, 0)) ==> found && budgetAfter == budget
    ensures found ==> SearchFor(ring, hash, url, i, counter, budget) == Free(position, counterAfter, budgetAfter)
    ensures !found ==> SearchFor(ring, hash, url, i, counter, budget) == Exhausted
  {
    counterAfter, budgetAfter := counter, budget;
    ghost var tries: nat := 0;
    position := Salted(hash, url, i, counterAfter);
    while budgetAfter > 0 && ContainsKey(ring, position)
      invariant tries + budgetAfter == budget
      invariant position == Probe(hash, url, i, counter, tries)
      invariant counterAfter == CounterAfter(counter, tries)
      invariant AllTaken(ring, hash, url, i, counter, tries)
    {
      TakenStep(ring, hash, url, i, counter, tries);
      ProbeStep(hash, url, i, counter, tries);
      budgetAfter := budgetAfter - 1;
      position := Salted(hash, url, i, counterAfter);
      counterAfter := Increment(counterAfter);
      tries := tries + 1;
    }
    found := !ContainsKey(ring, position);
    ProbeSearchOutcome(ring, hash, url, i, counter, budget, tries, found, position, counterAfter, budgetAfter);
  }

  /** Sorted (so no position is shared), inside the hash space, and each position a salted hash of its owner's URL. */
  ghost predicate RingShape(ring: seq<(int, int)>, urls: seq<string>, hash: KeyHash) {
    Sorted(ring) && InHashSpace(ring) && Placed(ring, urls, hash)
  }

  /** Ten copies of each of the first `j` URLs' node numbers. */
  ghost predicate OwnersUpTo(ring: seq<(int, int)>, urls: seq<string>, j: nat)
    requires j <= |urls|
  {
    multiset(Values(ring)) == ExpectedOwners(urls, j)
  }

  /** The ring once the first `j` URLs have their ten virtual nodes. */
  ghost predicate FilledUpTo(ring: seq<(int, int)>, urls: seq<string>, hash: KeyHash, j: nat)
    requires j <= |urls|
  {
    RingShape(ring, urls, hash) && |ring| == VIRTUAL_NODES_NUMBER * j && OwnersUpTo(ring, urls, j)
  }

  /** One turn of the inner loop of `fillVirtualNodes`: virtual node `i` of URL `j` goes into `ring`. */
  method AddVirtualNode(ring: seq<(int, int)>, urls: seq<string>, hash: KeyHash, j: nat, i: int,
                        counter: Int32, budget: nat)
    returns (found: bool, ringAfter: seq<(int, int)>, counterAfter: Int32, budgetAfter: nat)
    requires j < |urls| && 0 <= i < VIRTUAL_NODES_NUMBER
    requires RingShape(ring, urls, hash)
    ensures budgetAfter <= budget
    ensures !found ==> budgetAfter == 0 && ringAfter == ring
    ensures found ==> RingShape(ringAfter, urls, hash)
    ensures found ==> |ringAfter| == |ring| + 1
    ensures found ==> multiset(Values(ringAfter)) == multiset(Values(ring)) + multiset{IndexOf(urls, urls[j])}
    ensures var s := SearchFor(ring, hash, urls[j], i, counter, budget);
      && found == s.Free?
      && (found ==> ringAfter == Put(ring, s.position, IndexOf(urls, urls[j])))
      && (found ==> counterAfter == s.counter && budgetAfter == s.budget)
  {
    var url := urls[j];
    var nodeNumber := IndexOf(urls, url);
    var nodePosition;
    found, nodePosition, counterAfter, budgetAfter := FindFreePosition(ring, hash, url, i, counter, budget);
    ringAfter := ring;
    if found {
      InsertFreshPosition(ring, nodePosition, nodeNumber);
      ProbeIsSalted(hash, url, i, counter, budget - budgetAfter);
      InsertPlaced(ring, urls, hash, nodePosition, nodeNumber);
      ringAfter := Put(ring, nodePosition, nodeNumber);
    }
  }

  /** One turn of the outer loop of `fillVirtualNodes`: the ten virtual nodes of URL `j` go into `ring`. */
  method FillUrl(ring: seq<(int, int)>, urls: seq<string>, hash: KeyHash, j: nat, counter: Int32, budget: nat)
    returns (found: bool, ringAfter: seq<(int, int)>, counterAfter: Int32, budgetAfter: nat)
    requires j < |urls| && FilledUpTo(ring, urls, hash, j)
    ensures budgetAfter <= budget
    ensures !found ==> budgetAfter == 0
    ensures found ==> FilledUpTo(ringAfter, urls, hash, j + 1)
    ensures var f := FillUrlFrom(ring, hash, RingPut(), urls[j], IndexOf(urls, urls[j]), 0, counter, budget);
      && found == f.Filled?
      && (found ==> ringAfter == f.ring && counterAfter == f.counter && budgetAfter == f.budget)
  {
    ringAfter, counterAfter, budgetAfter := ring, counter, budget;
    var nodeNumber := IndexOf(urls, urls[j]);
    for i := 0 to VIRTUAL_NODES_NUMBER
      invariant RingShape(ringAfter, urls, hash)
      invariant |ringAfter| == |ring| + i
      invariant multiset(Values(ringAfter)) == multiset(Values(ring)) + Copies(nodeNumber, i)
      invariant budgetAfter <= budget
      invariant FillUrlFrom(ring, hash, RingPut(), urls[j], IndexOf(urls, urls[j]), 0, counter, budget) ==
                FillUrlFrom(ringAfter, hash, RingPut(), urls[j], nodeNumber, i, counterAfter, budgetAfter)
    {
      found, ringAfter, counterAfter, budgetAfter := AddVirtualNode(ringAfter, urls, hash, j, i, counterAfter, budgetAfter);
      if !found {
        return;
      }
      CopiesStep(nodeNumber, i);
    }
    NextUrlOwners(urls, j, multiset(Values(ring)), multiset(Values(ringAfter)));
    found := true;
  }

  /**
   * The loops of `fillVirtualNodes`, from the empty ring: for each URL and
   * each of its ten virtual nodes, hash `url + i + collisionCounter` to a
   * position and, while that position is taken, hash again with the counter
   * post-incremented (so the first retry repeats the same string). The
   * counter starts at 1, is shared by the whole fill and wraps like a Java
   * `int`. `false` when the retries ran out; `budgetLeft` is what is left of
   * `retryBudget`.
   */
  method FillRing(urls: seq<string>, hash: KeyHash, retryBudget: nat) returns (filled: bool, ring: seq<(int, int)>, budgetLeft: nat)
    ensures filled ==> FilledUpTo(ring, urls, hash, |urls|)
    ensures !filled ==> budgetLeft == 0
    ensures budgetLeft <= retryBudget
    ensures var f := Fill(urls, hash, retryBudget);
      filled == f.Filled? && (filled ==> ring == f.ring && budgetLeft == f.budget)
  {
    var collisionCounter: Int32 := 1;
    ring, budgetLeft := [], retryBudget;
    assert Values(ring) == [];
    var j := 0;
    while j < |urls|
      invariant 0 <= j <= |urls|
      invariant FilledUpTo(ring, urls, hash, j)
      invariant budgetLeft <= retryBudget
      invariant Fill(urls, hash, retryBudget) == FillFrom(ring, urls, FillUrlStep(urls, hash, RingPut()), j, collisionCounter, budgetLeft)
    {
      var found;
      found, ring, collisionCounter, budgetLeft := FillUrl(ring, urls, hash, j, collisionCounter, budgetLeft);
      if !found {
        return false, ring, budgetLeft;
      }
      j := j + 1;
    }
    filled := true;
  }

  class DemoService {
    const clusterUrls: seq<string>
    const selfNodeNumber: int
    /** `Hash.murmur3`, left uninterpreted. */
    const murmur3: string -> Int32
    var nodesNumberToUrl: map<int, string>
    /** The `virtualNodes` TreeMap: ring position to node number. */
    var virtualNodes: seq<(int, int)>

    /**
     * The ring the constructor leaves: ten positions per URL, none shared,
     * none outside the hash space, each one a salted hash of its owner's URL.
     */
    ghost predicate Valid()
      reads this
    {
      FilledUpTo(virtualNodes, clusterUrls, SaltedKeyHash(murmur3), |clusterUrls|)
    }

    /**
     * The constructor up to `fillVirtualNodes`: the node-limit check is done
     * by `Create`, which then fills the ring.
     */
    constructor (clusterUrls: seq<string>, selfUrl: string, murmur3: string -> Int32)
      requires |clusterUrls| <= MAX_NODES_NUMBER
      ensures this.clusterUrls == clusterUrls && this.murmur3 == murmur3
      ensures selfNodeNumber == IndexOf(clusterUrls, selfUrl)
      ensures nodesNumberToUrl == NodeUrls(clusterUrls, |clusterUrls|)
      ensures virtualNodes == []
    {
      this.clusterUrls := clusterUrls;
      this.murmur3 := murmur3;
      selfNodeNumber := IndexOf(clusterUrls, selfUrl);
      var numbers := map[];
      for j := 0 to |clusterUrls|
        invariant numbers == NodeUrls(clusterUrls, j)
      {
        numbers := numbers[IndexOf(clusterUrls, clusterUrls[j]) := clusterUrls[j]];
      }
      nodesNumberToUrl := numbers;
      virtualNodes := [];
    }

    /**
     * `new DemoService(config)`: refuses more than 1000 URLs, then fills the
     * ring. `retryBudget` bounds the collision retries of the whole fill.
     */
    static method Create(clusterUrls: seq<string>, selfUrl: string, murmur3: string -> Int32, retryBudget: nat)
      returns (r: Result<DemoService, ConfigError>)
      ensures |clusterUrls| > MAX_NODES_NUMBER <==> r == Failure(TooManyNodes)
      ensures r.Success? ==> fresh(r.value) && r.value.Valid()
      ensures r.Success? ==> r.value.clusterUrls == clusterUrls && r.value.murmur3 == murmur3
      ensures r.Success? ==> r.value.selfNodeNumber == IndexOf(clusterUrls, selfUrl)
      ensures r.Success? ==> r.value.nodesNumberToUrl == NodeUrls(clusterUrls, |clusterUrls|)
      ensures r == Failure(CollisionRetriesExhausted) <==>
                |clusterUrls| <= MAX_NODES_NUMBER && Fill(clusterUrls, SaltedKeyHash(murmur3), retryBudget).Stuck?
      ensures r.Success? ==> r.value.virtualNodes == Fill(clusterUrls, SaltedKeyHash(murmur3), retryBudget).ring
    {
      if |clusterUrls| > MAX_NODES_NUMBER {
        return Failure(TooManyNodes);
      }
      var service := new DemoService(clusterUrls, selfUrl, murmur3);
      var filled, _ := service.FillVirtualNodes(retryBudget);
      if !filled {
        return Failure(CollisionRetriesExhausted);
      }
      return Success(service);
    }

    /**
     * `fillVirtualNodes`: fills the (empty) ring with `FillRing` and stores
     * it in `virtualNodes`. `false` when the retries ran out; `budgetLeft`
     * is what is left of `retryBudget`.
     */
    method FillVirtualNodes(retryBudget: nat) returns (filled: bool, budgetLeft: nat)
      requires virtualNodes == []
      modifies this`virtualNodes
      ensures filled ==> Valid()
      ensures !filled ==> budgetLeft == 0
      ensures budgetLeft <= retryBudget
      ensures var f := Fill(clusterUrls, SaltedKeyHash(murmur3), retryBudget);
        filled == f.Filled? && (filled ==> virtualNodes == f.ring && budgetLeft == f.budget)
    {
      var ring;
      filled, ring, budgetLeft := FillRing(clusterUrls, SaltedKeyHash(murmur3), retryBudget);
      virtualNodes := ring;
    }

    /**
     * `getReplicaNodeNumbers`: the node numbers of the first `from` distinct
     * owners met walking the ring clockwise from the key's position. Fails
     * on an empty ring, and when `from` owners cannot be found.
     */
    method GetReplicaNodeNumbers(key: string, from: int) returns (r: Result<set<int>, RingError>)
      ensures virtualNodes == [] <==> r == Failure(EmptyRing)
      ensures r.Success? <==> virtualNodes != [] && 1 <= from <= |Owners(virtualNodes)|
      ensures r.Success? ==> |r.value| == from && r.value <= Owners(virtualNodes)
      ensures r.Success? ==>
                r.value == Elems(FirstDistinct(ReplicaWalk(virtualNodes, RingPosition(murmur3(key))), from))
    {
      var c := CeilingIndex(virtualNodes, RingPosition(murmur3(key)));
      if c == |virtualNodes| {
        if virtualNodes == [] {
          return Failure(EmptyRing);
        }
        c := 0;
      }
      var tail := Values(virtualNodes[c..]);
      ghost var head := Values(virtualNodes[..c]);
      WalkCoversRing(virtualNodes, c);
      assert Elems([]) == {};
      var replicas := AddReplicaNodePositions({}, tail, from, []);
      if |replicas| < from {
        assert replicas == Elems(tail);
        replicas := AddReplicaNodePositions(replicas, Values(virtualNodes), from, tail);
        SecondPassSeesWholeWalk(tail, head, from);
        assert |replicas| == if from <= |Owners(virtualNodes)| then from else |Owners(virtualNodes)|;
      } else if from >= 1 {
        FirstPassSuffices(tail, head, from);
      } else {
        assert tail[0] in replicas;
        assert |replicas| != from;
      }
      if |replicas| != from {
        return Failure(NotEnoughReplicaNodes);
      }
      return Success(replicas);
    }
  }
}
