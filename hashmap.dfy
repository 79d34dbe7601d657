/**
 * The separate-chaining hash map of axstd (new_collections/hashmap.rs): a
 * power-of-two vector of buckets, each an append-ordered list of pairs, and
 * a count of stored pairs.
 *
 * The hasher is reseeded at random for every hash computed (hashmap.rs:72,
 * 130), so the hash of a key is not a function of the key. Every operation
 * therefore takes the hash it uses as an input: `h` for the key at hand and
 * `rehash(i)` for the i-th pair re-placed by a resize.
 */
module ChainedHashMap {
  import opened Common
  import opened Bits

  /** The bucket count of `new()` and the least bucket count of any map. */
  const InitialCapacity: nat := 8
  const UsizeMax: nat := 0xffff_ffff_ffff_ffff
  /**
   * The largest power-of-two bucket count a vector of buckets can be
   * allocated with: 24-byte buckets within `isize::MAX` bytes.
   */
  const MaxBuckets: nat := 0x0400_0000_0000_0000

  type Bucket<K, V> = seq<(K, V)>

  lemma MaxBucketsIsPow2()
    ensures IsPow2(MaxBuckets)
  {
    assert Pow2(4) == 0x10;
    Pow2Sum(4, 4, 0x10, 0x10);
    Pow2Sum(8, 8, 0x100, 0x100);
    Pow2Sum(16, 16, 0x1_0000, 0x1_0000);
    Pow2Sum(32, 16, 0x1_0000_0000, 0x1_0000);
    Pow2Sum(48, 8, 0x1_0000_0000_0000, 0x100);
    Pow2Sum(56, 4, 0x100_0000_0000_0000, 0x10);
    Pow2IsPow2(60);
    assert IsPow2(0x1000_0000_0000_0000);
    assert IsPow2(0x800_0000_0000_0000);
  }

  /** `usize::next_power_of_two`: the least power of two that is at least `n`. */
  function NextPowerOfTwo(n: nat): (r: nat)
    ensures IsPow2(r) && n <= r
    ensures r == 1 || r / 2 < n
    decreases n
  {
    if n <= 1 then 1 else 2 * NextPowerOfTwo((n + 1) / 2)
  }

  /** No power of two at least `n` is below `NextPowerOfTwo(n)`. */
  lemma {:induction false} NextPowerOfTwoLeast(n: nat, m: nat)
    requires IsPow2(m) && n <= m
    ensures NextPowerOfTwo(n) <= m
    decreases n
  {
    if n > 1 {
      assert (n + 1) / 2 <= m / 2;
      NextPowerOfTwoLeast((n + 1) / 2, m / 2);
    }
  }

  /** `usize::saturating_mul(2)`. */
  function SaturatingDouble(n: nat): (r: nat)
    requires n <= UsizeMax
    ensures r <= UsizeMax
    ensures 2 * n <= UsizeMax ==> r == 2 * n
    ensures 2 * n > UsizeMax ==> r == UsizeMax
  {
    if 2 * n > UsizeMax then UsizeMax else 2 * n
  }

  /** Saturating doubling changes every bucket count a map can have. */
  lemma DoublingChangesCapacity(n: nat)
    requires InitialCapacity <= n <= MaxBuckets
    ensures SaturatingDouble(n) != n && SaturatingDouble(n) == 2 * n
  {
  }

  /** `bucket_index`: the hash masked by `n - 1`, and 0 when there are no buckets. */
  function Index(h: U64, n: nat): (r: nat)
    ensures n == 0 ==> r == 0
    ensures n > 0 ==> r < n
  {
    if n == 0 then 0 else And(h, n - 1)
  }

  /** For a power-of-two bucket count, the masked hash is the hash modulo the count. */
  lemma IndexIsModulo(h: U64, n: nat)
    requires IsPow2(n)
    ensures Index(h, n) == h % n
  {
    AndLowMask(h, n);
  }

  /** All pairs of a bucket vector, bucket by bucket, each bucket in push order. */
  function Flatten<K, V>(bs: seq<Bucket<K, V>>): seq<(K, V)>
  {
    if bs == [] then [] else bs[0] + Flatten(bs[1..])
  }

  lemma {:induction false} FlattenConcat<K, V>(a: seq<Bucket<K, V>>, b: seq<Bucket<K, V>>)
    ensures Flatten(a + b) == Flatten(a) + Flatten(b)
    decreases |a|
  {
    if a == [] {
      assert a + b == b;
    } else {
      assert (a + b)[0] == a[0] && (a + b)[1..] == a[1..] + b;
      FlattenConcat(a[1..], b);
    }
  }

  /** Flattening the first `i + 1` buckets is flattening the first `i` and then bucket `i`. */
  lemma FlattenPrefixStep<K, V>(bs: seq<Bucket<K, V>>, i: nat)
    requires i < |bs|
    ensures Flatten(bs[..i + 1]) == Flatten(bs[..i]) + bs[i]
  {
    assert bs[..i + 1] == bs[..i] + [bs[i]];
    FlattenConcat(bs[..i], [bs[i]]);
    assert Flatten([bs[i]]) == bs[i] + Flatten([]);
  }

  /** Replacing one bucket changes the flattened pairs by exactly that bucket's pairs. */
  lemma {:induction false} FlattenUpdate<K, V>(bs: seq<Bucket<K, V>>, i: nat, x: Bucket<K, V>)
    requires i < |bs|
    ensures |Flatten(bs[i := x])| + |bs[i]| == |Flatten(bs)| + |x|
    ensures multiset(Flatten(bs[i := x])) + multiset(bs[i]) == multiset(Flatten(bs)) + multiset(x)
    decreases |bs|
  {
    var bs' := bs[i := x];
    assert Flatten(bs) == bs[0] + Flatten(bs[1..]);
    assert Flatten(bs') == bs'[0] + Flatten(bs'[1..]);
    if i == 0 {
      assert bs'[1..] == bs[1..];
    } else {
      assert bs'[1..] == bs[1..][i - 1 := x] && bs'[0] == bs[0] && bs[1..][i - 1] == bs[i];
      FlattenUpdate(bs[1..], i - 1, x);
      var a, f', f := multiset(bs[0]), multiset(Flatten(bs'[1..])), multiset(Flatten(bs[1..]));
      assert f' + multiset(bs[i]) == f + multiset(x);
      assert multiset(Flatten(bs')) == a + f';
      assert multiset(Flatten(bs)) == a + f;
      assert (a + f') + multiset(bs[i]) == a + (f' + multiset(bs[i]));
      assert (a + f) + multiset(x) == a + (f + multiset(x));
    }
  }

  /**
   * The pairs of `items` that a resize to `n` buckets places in bucket `b`,
   * in their order in `items`; the i-th pair is placed by the hash `hs(i)`.
   */
  function Picked<K, V>(items: seq<(K, V)>, hs: nat -> U64, n: nat, b: nat): seq<(K, V)>
    requires 0 < n <= MaxBuckets
  {
    if items == [] then []
    else
      var last := |items| - 1;
      Picked(items[..last], hs, n, b) + (if Index(hs(last), n) == b then [items[last]] else [])
  }

  /** The bucket vector a resize to `n` buckets builds from `items`. */
  function Redistribute<K, V>(items: seq<(K, V)>, hs: nat -> U64, n: nat): (bs: seq<Bucket<K, V>>)
    requires 0 < n <= MaxBuckets
    ensures |bs| == n
  {
    seq(n, b requires 0 <= b < n => Picked(items, hs, n, b))
  }

  /** Placing one more pair appends it to the one bucket its hash selects. */
  lemma RedistributeAppend<K, V>(items: seq<(K, V)>, x: (K, V), hs: nat -> U64, n: nat)
    requires 0 < n <= MaxBuckets
    ensures var i, bs := Index(hs(|items|), n), Redistribute(items, hs, n);
      Redistribute(items + [x], hs, n) == bs[i := bs[i] + [x]]
  {
    var i, bs := Index(hs(|items|), n), Redistribute(items, hs, n);
    var bs' := Redistribute(items + [x], hs, n);
    assert (items + [x])[..|items|] == items;
    forall b | 0 <= b < n
      ensures bs'[b] == bs[i := bs[i] + [x]][b]
    {
      assert bs'[b] == Picked(items, hs, n, b) + (if i == b then [x] else []);
    }
  }

  /** One step of the re-placing loop: the `k`-th pair of a bucket after the pairs `placed` so far. */
  lemma RedistributeStep<K, V>(placed: seq<(K, V)>, pairs: seq<(K, V)>, k: nat, hs: nat -> U64, n: nat)
    requires 0 < n <= MaxBuckets && k < |pairs|
    ensures var done := placed + pairs[..k]; var i, bs := Index(hs(|done|), n), Redistribute(done, hs, n);
      Redistribute(placed + pairs[..k + 1], hs, n) == bs[i := bs[i] + [pairs[k]]]
  {
    assert placed + pairs[..k + 1] == (placed + pairs[..k]) + [pairs[k]];
    RedistributeAppend(placed + pairs[..k], pairs[k], hs, n);
  }

  /**
   * A resize keeps every pair exactly once: the new buckets hold the same
   * multiset of pairs as `items`.
   */
  lemma {:induction false} RedistributeKeepsPairs<K, V>(items: seq<(K, V)>, hs: nat -> U64, n: nat)
    requires 0 < n <= MaxBuckets
    ensures multiset(Flatten(Redistribute(items, hs, n))) == multiset(items)
    ensures |Flatten(Redistribute(items, hs, n))| == |items|
    decreases |items|
  {
    if items == [] {
      RedistributeNothing<K, V>(hs, n);
    } else {
      var last := |items| - 1;
      var front, x := items[..last], items[last];
      assert items == front + [x];
      RedistributeKeepsPairs(front, hs, n);
      RedistributeAppend(front, x, hs, n);
      AppendKeepsPairs(Redistribute(front, hs, n), Index(hs(last), n), front, x);
    }
  }

  /** Appending `x` to one bucket of buckets holding `front` makes them hold `front + [x]`. */
  lemma AppendKeepsPairs<K, V>(bs: seq<Bucket<K, V>>, i: nat, front: seq<(K, V)>, x: (K, V))
    requires i < |bs| && multiset(Flatten(bs)) == multiset(front) && |Flatten(bs)| == |front|
    ensures multiset(Flatten(bs[i := bs[i] + [x]])) == multiset(front + [x])
    ensures |Flatten(bs[i := bs[i] + [x]])| == |front + [x]|
  {
    AppendToBucket(bs, i, x);
    assert multiset(front + [x]) == multiset(front) + multiset{x};
  }

  /** Appending `x` to one bucket adds exactly `x` to the stored pairs. */
  lemma AppendToBucket<K, V>(bs: seq<Bucket<K, V>>, i: nat, x: (K, V))
    requires i < |bs|
    ensures multiset(Flatten(bs[i := bs[i] + [x]])) == multiset(Flatten(bs)) + multiset{x}
    ensures |Flatten(bs[i := bs[i] + [x]])| == |Flatten(bs)| + 1
  {
    assert multiset(bs[i] + [x]) + multiset{} == multiset(bs[i]) + multiset{x};
    SwapInBucket(bs, i, bs[i] + [x], multiset{}, multiset{x});
    FlattenUpdate(bs, i, bs[i] + [x]);
  }

  /** Overwriting the pair at `p` of bucket `i` with `y` swaps that pair for `y` in the stored pairs. */
  lemma ReplaceInBucket<K, V>(bs: seq<Bucket<K, V>>, i: nat, p: nat, y: (K, V))
    requires i < |bs| && p < |bs[i]|
    ensures bs[i][p] in multiset(Flatten(bs))
    ensures multiset(Flatten(bs[i := bs[i][p := y]])) + multiset{bs[i][p]} == multiset(Flatten(bs)) + multiset{y}
    ensures |Flatten(bs[i := bs[i][p := y]])| == |Flatten(bs)|
  {
    ReplaceSwaps(bs[i], p, y);
    SwapInBucket(bs, i, bs[i][p := y], multiset{bs[i][p]}, multiset{y});
    FlattenUpdate(bs, i, bs[i][p := y]);
    PairInFlatten(bs, i, p);
  }

  /** Overwriting position `p` of a sequence swaps the old element for the new one. */
  lemma ReplaceSwaps<T>(xs: seq<T>, p: nat, y: T)
    requires p < |xs|
    ensures multiset(xs[p := y]) + multiset{xs[p]} == multiset(xs) + multiset{y}
  {
    assert xs == xs[..p] + [xs[p]] + xs[p + 1..];
    assert xs[p := y] == xs[..p] + [y] + xs[p + 1..];
  }

  /** Every pair of every bucket is among the stored pairs. */
  lemma {:induction false} PairInFlatten<K, V>(bs: seq<Bucket<K, V>>, i: nat, p: nat)
    requires i < |bs| && p < |bs[i]|
    ensures bs[i][p] in Flatten(bs)
    decreases i
  {
    assert Flatten(bs) == bs[0] + Flatten(bs[1..]);
    if i > 0 {
      PairInFlatten(bs[1..], i - 1, p);
    }
  }

  /** A bucket change that swaps `d` for `e` swaps `d` for `e` in the stored pairs. */
  lemma SwapInBucket<K, V>(bs: seq<Bucket<K, V>>, i: nat, x: Bucket<K, V>, d: multiset<(K, V)>, e: multiset<(K, V)>)
    requires i < |bs| && multiset(x) + d == multiset(bs[i]) + e
    ensures multiset(Flatten(bs[i := x])) + d == multiset(Flatten(bs)) + e
  {
    var m', m, a := multiset(Flatten(bs[i := x])), multiset(Flatten(bs)), multiset(bs[i]);
    FlattenUpdate(bs, i, x);
    assert (m' + d) + a == (m' + a) + d == (m + multiset(x)) + d == m + (multiset(x) + d);
    assert m + (a + e) == (m + e) + a;
    MultisetCancel(m' + d, m + e, a);
  }

  /** Multiset union cancels: `a + c == b + c` only if `a == b`. */
  lemma MultisetCancel<T>(a: multiset<T>, b: multiset<T>, c: multiset<T>)
    requires a + c == b + c
    ensures a == b
  {
    forall e: T
      ensures a[e] == b[e]
    {
      assert (a + c)[e] == (b + c)[e];
    }
  }

  /** A resize of no pairs builds empty buckets. */
  lemma RedistributeNothing<K, V>(hs: nat -> U64, n: nat)
    requires 0 < n <= MaxBuckets
    ensures Flatten(Redistribute<K, V>([], hs, n)) == []
  {
    var bs := Redistribute<K, V>([], hs, n);
    assert bs == EmptyBuckets(n);
    EmptyBucketsHoldNothing<K, V>(n);
  }

  /** Every pair a resize puts in bucket `b` is a pair of `items` whose hash selects `b`. */
  lemma {:induction false} PickedPlacement<K, V>(items: seq<(K, V)>, hs: nat -> U64, n: nat, b: nat, x: (K, V))
    requires 0 < n <= MaxBuckets
    requires x in Picked(items, hs, n, b)
    ensures exists i :: 0 <= i < |items| && items[i] == x && Index(hs(i), n) == b
    decreases |items|
  {
    var last := |items| - 1;
    if x in Picked(items[..last], hs, n, b) {
      PickedPlacement(items[..last], hs, n, b, x);
      var i :| 0 <= i < last && items[..last][i] == x && Index(hs(i), n) == b;
      assert items[i] == x;
    } else {
      assert items[last] == x && Index(hs(last), n) == b;
    }
  }

  /** `n` empty buckets. */
  function EmptyBuckets<K, V>(n: nat): (bs: seq<Bucket<K, V>>)
    ensures |bs| == n && forall b :: 0 <= b < n ==> bs[b] == []
  {
    seq(n, _ => [])
  }

  lemma {:induction false} EmptyBucketsHoldNothing<K, V>(n: nat)
    ensures Flatten(EmptyBuckets<K, V>(n)) == []
    decreases n
  {
    if n > 0 {
      assert EmptyBuckets<K, V>(n)[1..] == EmptyBuckets<K, V>(n - 1);
      EmptyBucketsHoldNothing<K, V>(n - 1);
    }
  }

  /** The position of the first pair with key `key` in `items`, if any. */
  function FindKey<K(==), V>(items: seq<(K, V)>, key: K): (r: Option<nat>)
    ensures r.Some? ==> r.value < |items| && items[r.value].0 == key
    ensures r.Some? ==> forall j :: 0 <= j < r.value ==> items[j].0 != key
    ensures r.None? <==> forall j :: 0 <= j < |items| ==> items[j].0 != key
  {
    if items == [] then None
    else if items[0].0 == key then Some(0)
    else match FindKey(items[1..], key)
      case None => None
      case Some(p) => Some(p + 1)
  }

  /** The value a lookup with hash `h` finds: the first pair with `key` in the probed bucket. */
  function Find<K(==), V>(bs: seq<Bucket<K, V>>, key: K, h: U64): (r: Option<V>)
    requires 0 < |bs| <= MaxBuckets
    ensures var bk := bs[Index(h, |bs|)];
      && (r.None? <==> forall j :: 0 <= j < |bk| ==> bk[j].0 != key)
      && (r.Some? ==> exists j :: 0 <= j < |bk| && bk[j] == (key, r.value))
  {
    var bk := bs[Index(h, |bs|)];
    match FindKey(bk, key)
    case None => None
    case Some(p) => Some(bk[p].1)
  }

  /** Whether the load factor `len / cap` exceeds 0.75, computed exactly. */
  predicate Overloaded(len: nat, cap: nat)
  {
    4 * len > 3 * cap
  }

  /** The bucket vector after `resize_if_needed`. */
  function Prepared<K, V>(bs: seq<Bucket<K, V>>, len: nat, rehash: nat -> U64): (r: seq<Bucket<K, V>>)
    requires 0 < |bs| && (Overloaded(len, |bs|) ==> 2 * |bs| <= MaxBuckets)
    ensures |r| == (if Overloaded(len, |bs|) then 2 * |bs| else |bs|)
  {
    if Overloaded(len, |bs|) then Redistribute(Flatten(bs), rehash, 2 * |bs|) else bs
  }

  /** `resize_if_needed` keeps every stored pair exactly once. */
  lemma PreparedKeepsPairs<K, V>(bs: seq<Bucket<K, V>>, len: nat, rehash: nat -> U64)
    requires 0 < |bs| && (Overloaded(len, |bs|) ==> 2 * |bs| <= MaxBuckets)
    ensures multiset(Flatten(Prepared(bs, len, rehash))) == multiset(Flatten(bs))
    ensures |Flatten(Prepared(bs, len, rehash))| == |Flatten(bs)|
  {
    if Overloaded(len, |bs|) {
      RedistributeKeepsPairs(Flatten(bs), rehash, 2 * |bs|);
    }
  }

  /** The bucket vector after `insert` has put `(key, value)` into the probed bucket of `bs`. */
  function Inserted<K(==), V>(bs: seq<Bucket<K, V>>, key: K, value: V, h: U64): (r: seq<Bucket<K, V>>)
    requires 0 < |bs| <= MaxBuckets
    ensures |r| == |bs|
  {
    var i := Index(h, |bs|);
    match FindKey(bs[i], key)
    case Some(p) => bs[i := bs[i][p := (key, value)]]
    case None => bs[i := bs[i] + [(key, value)]]
  }

  /** `FindKey` is determined by its contract: the first position with the key. */
  lemma FindKeyFirst<K, V>(items: seq<(K, V)>, key: K, p: nat)
    requires p < |items| && items[p].0 == key
    requires forall j :: 0 <= j < p ==> items[j].0 != key
    ensures FindKey(items, key) == Some(p)
  {
    var r := FindKey(items, key);
    assert r.Some?;
    assert !(r.value < p) && !(p < r.value);
  }

  /** `FindKey` finds nothing when no pair has the key. */
  lemma FindKeyNone<K, V>(items: seq<(K, V)>, key: K)
    requires forall j :: 0 <= j < |items| ==> items[j].0 != key
    ensures FindKey(items, key) == None
  {
  }

  /** Overwriting the first pair with `key` keeps it the first, and moves no other key's first pair. */
  lemma FindKeyAfterReplace<K, V>(bk: seq<(K, V)>, p: nat, key: K, value: V, key': K)
    requires FindKey(bk, key) == Some(p)
    ensures FindKey(bk[p := (key, value)], key) == Some(p)
    ensures key' != key ==> FindKey(bk[p := (key, value)], key') == FindKey(bk, key')
  {
    var bk' := bk[p := (key, value)];
    FindKeyFirst(bk', key, p);
    if key' != key {
      match FindKey(bk, key')
      case Some(q) => FindKeyFirst(bk', key', q);
      case None => assert forall j :: 0 <= j < |bk'| ==> bk'[j].0 != key';
    }
  }

  /** Appending a pair whose key was absent makes it the first pair with that key, and no other key's. */
  lemma FindKeyAfterAppend<K, V>(bk: seq<(K, V)>, key: K, value: V, key': K)
    requires FindKey(bk, key).None?
    ensures FindKey(bk + [(key, value)], key) == Some(|bk|)
    ensures key' != key ==> FindKey(bk + [(key, value)], key') == FindKey(bk, key')
  {
    var bk' := bk + [(key, value)];
    FindKeyFirst(bk', key, |bk|);
    if key' != key {
      match FindKey(bk, key')
      case Some(q) => FindKeyFirst(bk', key', q);
      case None => assert forall j :: 0 <= j < |bk'| ==> bk'[j].0 != key';
    }
  }

  /**
   * A lookup with the hash the insert used finds the inserted value, and a
   * lookup of any other key finds what it found before.
   */
  lemma InsertedThenFind<K, V>(bs: seq<Bucket<K, V>>, key: K, value: V, h: U64, key': K, h': U64)
    requires 0 < |bs| <= MaxBuckets
    ensures Find(Inserted(bs, key, value, h), key, h) == Some(value)
    ensures key' != key ==> Find(Inserted(bs, key, value, h), key', h') == Find(bs, key', h')
  {
    var i := Index(h, |bs|);
    var bs' := Inserted(bs, key, value, h);
    match FindKey(bs[i], key)
    case Some(p) =>
      FindKeyAfterReplace(bs[i], p, key, value, key');
      assert bs' == bs[i := bs[i][p := (key, value)]];
      FindInUpdated(bs, i, bs'[i], key, value, h, p);
    case None =>
      FindKeyAfterAppend(bs[i], key, value, key');
      assert bs' == bs[i := bs[i] + [(key, value)]];
      FindInUpdated(bs, i, bs'[i], key, value, h, |bs[i]|);
    FindOtherKey(bs, bs', i, key, key', h');
  }

  /** A lookup with hash `h` reads the first pair with `key` in the bucket that hash selects. */
  lemma FindInUpdated<K, V>(bs: seq<Bucket<K, V>>, i: nat, bk: Bucket<K, V>, key: K, value: V, h: U64, p: nat)
    requires 0 < |bs| <= MaxBuckets && i == Index(h, |bs|)
    requires p < |bk| && bk[p] == (key, value) && FindKey(bk, key) == Some(p)
    ensures Find(bs[i := bk], key, h) == Some(value)
  {
  }

  /** A lookup of `key'` sees only bucket `i` change, in a way that keeps its first pair with `key'`. */
  lemma FindOtherKey<K, V>(bs: seq<Bucket<K, V>>, bs': seq<Bucket<K, V>>, i: nat, key: K, key': K, h': U64)
    requires 0 < |bs| <= MaxBuckets && |bs'| == |bs| && i < |bs|
    requires forall b :: 0 <= b < |bs| && b != i ==> bs'[b] == bs[b]
    requires key' != key ==> FindKey(bs'[i], key') == FindKey(bs[i], key')
    requires key' != key ==> forall q :: FindKey(bs[i], key') == Some(q) ==> bs'[i][q] == bs[i][q]
    ensures key' != key ==> Find(bs', key', h') == Find(bs, key', h')
  {
  }

  /**
   * The stored pairs after `insert`: one more pair if the key was not in the
   * probed bucket, otherwise the first pair with that key swapped for the
   * new pair.
   */
  lemma InsertedPairs<K, V>(bs: seq<Bucket<K, V>>, key: K, value: V, h: U64)
    requires 0 < |bs| <= MaxBuckets
    ensures var i := Index(h, |bs|); var r := Inserted(bs, key, value, h);
      match FindKey(bs[i], key)
      case None =>
        && multiset(Flatten(r)) == multiset(Flatten(bs)) + multiset{(key, value)}
        && |Flatten(r)| == |Flatten(bs)| + 1
      case Some(p) =>
        && bs[i][p] in multiset(Flatten(bs))
        && multiset(Flatten(r)) + multiset{bs[i][p]} == multiset(Flatten(bs)) + multiset{(key, value)}
        && |Flatten(r)| == |Flatten(bs)|
  {
    var i := Index(h, |bs|);
    match FindKey(bs[i], key)
    case None => AppendToBucket(bs, i, (key, value));
    case Some(p) => ReplaceInBucket(bs, i, p, (key, value));
  }

  /**
   * Because each call hashes with a fresh seed, one key inserted twice under
   * two hashes is stored twice, and a lookup finds only one of the two
   * values.
   */
  lemma SameKeyStoredTwice()
    ensures var empty := EmptyBuckets<int, int>(InitialCapacity);
      var bs := Inserted(Inserted(empty, 7, 10, 0), 7, 20, 1);
      && Flatten(bs) == [(7, 10), (7, 20)]
      && Find(bs, 7, 0) == Some(10) && Find(bs, 7, 1) == Some(20)
  {
    var empty := EmptyBuckets<int, int>(InitialCapacity);
    assert Index(0, 8) == 0;
    assert And(1, 7) == 2 * And(0, 3) + 1;
    assert Index(1, 8) == 1;
    assert FindKey(empty[0], 7) == None && empty[0] + [(7, 10)] == [(7, 10)];
    var bs1 := Inserted(empty, 7, 10, 0);
    assert bs1 == empty[0 := [(7, 10)]];
    assert FindKey(bs1[1], 7) == None && bs1[1] + [(7, 20)] == [(7, 20)];
    var bs := Inserted(bs1, 7, 20, 1);
    assert bs == empty[0 := [(7, 10)]][1 := [(7, 20)]];
    assert bs == [[(7, 10)], [(7, 20)]] + EmptyBuckets(6);
    FlattenConcat([[(7, 10)], [(7, 20)]], EmptyBuckets(6));
    EmptyBucketsHoldNothing<int, int>(6);
    assert Flatten([[(7, 10)], [(7, 20)]]) == [(7, 10)] + Flatten([[(7, 20)]]);
    assert FindKey(bs[0], 7) == Some(0) && FindKey(bs[1], 7) == Some(0);
  }

  class HashMap<K(==), V> {
    var buckets: seq<Bucket<K, V>>
    var len: nat

    /** The bucket count is a power of two, at least 8, and `len` counts the stored pairs. */
    ghost predicate Valid()
      reads this
    {
      && IsPow2(|buckets|) && InitialCapacity <= |buckets| <= MaxBuckets
      && len == |Flatten(buckets)|
    }

    ghost function Items(): seq<(K, V)>
      reads this
    {
      Flatten(buckets)
    }

    /** `with_capacity_and_hasher`: at least 8 empty buckets, rounded up to a power of two. */
    constructor WithCapacity(capacity: nat)
      requires capacity <= MaxBuckets
      ensures Valid()
      ensures |buckets| == Max(InitialCapacity, NextPowerOfTwo(capacity)) && len == 0
      ensures forall b :: 0 <= b < |buckets| ==> buckets[b] == []
    {
      var cap := Max(InitialCapacity, NextPowerOfTwo(capacity));
      var bs: seq<Bucket<K, V>> := [];
      while |bs| < cap
        invariant |bs| <= cap
        invariant forall b :: 0 <= b < |bs| ==> bs[b] == []
      {
        bs := bs + [[]];
      }
      assert bs == EmptyBuckets(cap);
      EmptyBucketsHoldNothing<K, V>(cap);
      Pow2IsPow2(3);
      MaxBucketsIsPow2();
      NextPowerOfTwoLeast(capacity, MaxBuckets);
      buckets := bs;
      len := 0;
    }

    /** `HashMap::new`: eight empty buckets. */
    constructor New()
      ensures Valid()
      ensures |buckets| == InitialCapacity && len == 0
      ensures forall b :: 0 <= b < |buckets| ==> buckets[b] == []
    {
      buckets := EmptyBuckets(InitialCapacity);
      len := 0;
      EmptyBucketsHoldNothing<K, V>(InitialCapacity);
      Pow2IsPow2(3);
    }

    /**
     * `resize`: doubles the bucket count and re-places every pair, in
     * bucket-then-push order, by the hash the stream `rehash` gives it.
     */
    method Resize(rehash: nat -> U64)
      requires Valid() && 2 * |buckets| <= MaxBuckets
      modifies this
      ensures Valid() && len == old(len)
      ensures buckets == Redistribute(old(Items()), rehash, 2 * old(|buckets|))
    {
      var cap := |buckets|;
      var newCap := SaturatingDouble(cap);
      if newCap != cap {
        ghost var items := Items();
        var oldBuckets := buckets;
        buckets := EmptyBuckets(newCap);
        len := 0;
        var i := 0;
        while i < |oldBuckets|
          invariant 0 <= i <= |oldBuckets|
          invariant len == |Flatten(oldBuckets[..i])|
          invariant buckets == Redistribute(Flatten(oldBuckets[..i]), rehash, newCap)
        {
          ghost var placed := Flatten(oldBuckets[..i]);
          var pairs := oldBuckets[i];
          var k := 0;
          assert placed + pairs[..k] == placed;
          while k < |pairs|
            invariant 0 <= k <= |pairs|
            invariant len == |placed + pairs[..k]|
            invariant buckets == Redistribute(placed + pairs[..k], rehash, newCap)
          {
            RedistributeStep(placed, pairs, k, rehash, newCap);
            var index := Index(rehash(len), newCap);
            buckets := buckets[index := buckets[index] + [pairs[k]]];
            len := len + 1;
            k := k + 1;
          }
          FlattenPrefixStep(oldBuckets, i);
          assert pairs[..|pairs|] == pairs;
          i := i + 1;
        }
        assert oldBuckets[..|oldBuckets|] == oldBuckets;
        DoublePow2(cap);
        RedistributeKeepsPairs(items, rehash, newCap);
      }
    }

    /** `resize_if_needed`: resizes exactly when the load factor exceeds 0.75. */
    method ResizeIfNeeded(rehash: nat -> U64)
      requires Valid() && (Overloaded(len, |buckets|) ==> 2 * |buckets| <= MaxBuckets)
      modifies this
      ensures Valid() && len == old(len)
      ensures buckets == Prepared(old(buckets), old(len), rehash)
    {
      if Overloaded(len, |buckets|) && |buckets| > 0 {
        Resize(rehash);
      }
    }

    /**
     * `insert` with hash `h` for the key: after `resize_if_needed`, replaces
     * the value of the first pair with `key` in the probed bucket and
     * returns the old value, or appends the pair and returns `None`.
     */
    method Insert(key: K, value: V, h: U64, rehash: nat -> U64) returns (r: Option<V>)
      requires Valid() && (Overloaded(len, |buckets|) ==> 2 * |buckets| <= MaxBuckets)
      modifies this
      ensures Valid()
      ensures var bs := Prepared(old(buckets), old(len), rehash); var bk := bs[Index(h, |bs|)];
        && buckets == Inserted(bs, key, value, h)
        && match FindKey(bk, key)
           case None => r.None?
           case Some(p) => r == Some(bk[p].1)
      ensures r.None? ==>
        len == old(len) + 1 && multiset(Items()) == multiset(old(Items())) + multiset{(key, value)}
      ensures r.Some? ==>
        && len == old(len) && (key, r.value) in multiset(old(Items()))
        && multiset(Items()) + multiset{(key, r.value)} == multiset(old(Items())) + multiset{(key, value)}
    {
      ResizeIfNeeded(rehash);
      PreparedKeepsPairs(old(buckets), old(len), rehash);
      ghost var bs := buckets;
      InsertedPairs(bs, key, value, h);
      var index := Index(h, |buckets|);
      var bucket := buckets[index];
      var p := 0;
      while p < |bucket|
        invariant 0 <= p <= |bucket|
        invariant forall j :: 0 <= j < p ==> bucket[j].0 != key
      {
        if bucket[p].0 == key {
          FindKeyFirst(bucket, key, p);
          r := Some(bucket[p].1);
          buckets := buckets[index := bucket[p := (key, value)]];
          assert buckets == Inserted(bs, key, value, h) && bucket[p] == (key, r.value);
          return;
        }
        p := p + 1;
      }
      FindKeyNone(bucket, key);
      buckets := buckets[index := bucket + [(key, value)]];
      assert buckets == Inserted(bs, key, value, h);
      len := len + 1;
      r := None;
    }

    /** `get` with hash `h` for the key: the value of the first pair with `key` in the probed bucket. */
    method Get(key: K, h: U64) returns (r: Option<V>)
      requires Valid()
      ensures r == Find(buckets, key, h)
    {
      if len == 0 {
        NoPairsEmptyBuckets(buckets, Index(h, |buckets|));
        return None;
      }
      var bucket := buckets[Index(h, |buckets|)];
      var p := 0;
      while p < |bucket|
        invariant 0 <= p <= |bucket|
        invariant forall j :: 0 <= j < p ==> bucket[j].0 != key
      {
        if bucket[p].0 == key {
          assert FindKey(bucket, key) == Some(p);
          return Some(bucket[p].1);
        }
        p := p + 1;
      }
      r := None;
    }

    /** `len`: the number of stored pairs. */
    function Len(): (n: nat)
      requires Valid()
      reads this
      ensures n == |Items()|
    {
      len
    }

    /** `is_empty`. */
    function IsEmpty(): (b: bool)
      requires Valid()
      reads this
      ensures b <==> Items() == []
    {
      len == 0
    }

    /** `iter`: an iterator over the buckets as they are now. */
    method Iter() returns (it: Iter<K, V>)
      requires Valid()
      ensures fresh(it) && it.Valid() && it.Remaining() == Items()
    {
      it := new Iter(buckets);
    }
  }

  /** A map without pairs has only empty buckets. */
  lemma {:induction false} NoPairsEmptyBuckets<K, V>(bs: seq<Bucket<K, V>>, i: nat)
    requires i < |bs| && Flatten(bs) == []
    ensures bs[i] == []
    decreases |bs|
  {
    if i > 0 {
      NoPairsEmptyBuckets(bs[1..], i - 1);
    }
  }

  /**
   * The iterator: a cursor of a bucket index and a position in that bucket,
   * over buckets that stay borrowed, and so unchanged, while it lives.
   */
  class Iter<K, V> {
    const buckets: seq<Bucket<K, V>>
    var bucketIdx: nat
    var itemIdx: nat

    ghost predicate Valid()
      reads this
    {
      bucketIdx <= |buckets| && (bucketIdx < |buckets| ==> itemIdx <= |buckets[bucketIdx]|)
    }

    /** The pairs still to come, in the order they will come. */
    ghost function Remaining(): seq<(K, V)>
      requires Valid()
      reads this
    {
      if bucketIdx == |buckets| then []
      else buckets[bucketIdx][itemIdx..] + Flatten(buckets[bucketIdx + 1..])
    }

    /** `Iter::new`: both cursors at 0, so every pair is still to come. */
    constructor (bs: seq<Bucket<K, V>>)
      ensures buckets == bs && bucketIdx == 0 && itemIdx == 0
      ensures Valid() && Remaining() == Flatten(bs)
    {
      buckets := bs;
      bucketIdx := 0;
      itemIdx := 0;
      new;
      if bs != [] {
        assert bs[0][0..] == bs[0];
      }
    }

    /** `Iterator::next`: the next pair in order, then `None` forever. */
    method Next() returns (r: Option<(K, V)>)
      requires Valid()
      modifies this
      ensures Valid()
      ensures old(Remaining()) == [] ==> r == None && Remaining() == []
      ensures old(Remaining()) != [] ==> r == Some(old(Remaining())[0]) && Remaining() == old(Remaining())[1..]
    {
      while bucketIdx < |buckets|
        invariant Valid() && Remaining() == old(Remaining())
        decreases |buckets| - bucketIdx
      {
        var pairs := buckets[bucketIdx];
        if itemIdx < |pairs| {
          r := Some(pairs[itemIdx]);
          itemIdx := itemIdx + 1;
          assert pairs[itemIdx - 1..][1..] == pairs[itemIdx..];
          return;
        }
        assert buckets[bucketIdx..][1..] == buckets[bucketIdx + 1..];
        bucketIdx := bucketIdx + 1;
        itemIdx := 0;
        if bucketIdx < |buckets| {
          assert buckets[bucketIdx][0..] == buckets[bucketIdx];
          assert Flatten(buckets[bucketIdx..]) == buckets[bucketIdx] + Flatten(buckets[bucketIdx + 1..]);
        }
      }
      r := None;
    }
  }
}
