/** Whole runs of the cache: what eviction by recency guarantees about traces. */
module LruTraces {
  import LruCache
  import opened LruSpec
  import opened Wrappers

  datatype Op<K, V> = OpGet(key: K) | OpPut(key: K, value: V) | OpErase(key: K) | OpClear

  function Apply<K(==), V>(capacity: nat, l: seq<Entry<K, V>>, op: Op<K, V>): seq<Entry<K, V>> {
    match op
    case OpGet(k) => Get(l, k)
    case OpPut(k, v) => Put(capacity, l, k, v)
    case OpErase(k) => Without(l, k)
    case OpClear => []
  }

  function Run<K(==), V>(capacity: nat, l: seq<Entry<K, V>>, ops: seq<Op<K, V>>): seq<Entry<K, V>>
    decreases |ops|
  {
    if ops == [] then l else Run(capacity, Apply(capacity, l, ops[0]), ops[1..])
  }

  /** What one operation returns, if it is a get, and what the gets of a run return. */
  function Answer<K(==), V>(l: seq<Entry<K, V>>, op: Op<K, V>): seq<Option<V>> {
    if op.OpGet? then [Lookup(l, op.key)] else []
  }

  function Answers<K(==), V>(capacity: nat, l: seq<Entry<K, V>>, ops: seq<Op<K, V>>): seq<Option<V>>
    decreases |ops|
  {
    if ops == [] then [] else Answer(l, ops[0]) + Answers(capacity, Apply(capacity, l, ops[0]), ops[1..])
  }

  lemma {:induction false} RunSnoc<K, V>(capacity: nat, l: seq<Entry<K, V>>, ops: seq<Op<K, V>>, op: Op<K, V>)
    ensures Run(capacity, l, ops + [op]) == Apply(capacity, Run(capacity, l, ops), op)
    decreases |ops|
  {
    if ops == [] {
      assert (ops + [op])[1..] == [];
    } else {
      RunSnoc(capacity, Apply(capacity, l, ops[0]), ops[1..], op);
      assert (ops + [op])[1..] == ops[1..] + [op];
    }
  }

  method Perform<K(==), V>(cache: LruCache.LRUCache<K, V>, op: Op<K, V>) returns (answer: seq<Option<V>>)
    requires cache.Valid()
    modifies cache, cache.index, cache.index.buckets
    ensures cache.Valid() && cache.View() == Apply(cache.capacity, old(cache.View()), op)
    ensures answer == Answer(old(cache.View()), op)
    ensures cache.index.buckets == old(cache.index.buckets) || fresh(cache.index.buckets)
  {
    answer := [];
    match op
    case OpGet(k) =>
      var r := cache.Get(k);
      answer := [r];
    case OpPut(k, v) => cache.Put(k, v);
    case OpErase(k) => var found := cache.Erase(k);
    case OpClear => cache.Clear();
  }

  /** The cache itself, put through a trace: all that follows about traces holds of the object on the
      real hash table. */
  method Replay<K(==), V>(cache: LruCache.LRUCache<K, V>, ops: seq<Op<K, V>>) returns (answers: seq<Option<V>>)
    requires cache.Valid()
    modifies cache, cache.index, cache.index.buckets
    ensures cache.Valid() && cache.View() == Run(cache.capacity, old(cache.View()), ops)
    ensures answers == Answers(cache.capacity, old(cache.View()), ops)
    decreases |ops|
  {
    answers := [];
    if ops != [] {
      hide Apply, Answer, LruCache.LRUCache.Valid, LruCache.LRUCache.View;
      var first := Perform(cache, ops[0]);
      var rest := Replay(cache, ops[1..]);
      answers := first + rest;
    }
  }

  // ---------------------------------------------------------------- lists of distinct keys

  ghost predicate Listed<K, V>(capacity: nat, l: seq<Entry<K, V>>) {
    Distinct(l) && |l| <= capacity
  }

  lemma {:induction false} HasIndex<K, V>(l: seq<Entry<K, V>>, key: K)
    ensures Has(l, key) <==> exists i :: 0 <= i < |l| && l[i].key == key
    ensures Has(l, key) <==> Lookup(l, key).Some?
  {
    if l != [] {
      HasIndex(l[1..], key);
      if Has(l[1..], key) {
        var i :| 0 <= i < |l[1..]| && l[1..][i].key == key;
        assert l[i + 1].key == key;
      }
    }
  }

  lemma {:induction false} WithoutKeeps<K, V>(l: seq<Entry<K, V>>, key: K, other: K)
    requires key != other
    ensures Lookup(Without(l, key), other) == Lookup(l, other)
    ensures Has(Without(l, key), other) == Has(l, other)
  {
    if l != [] {
      WithoutKeeps(l[1..], key, other);
    }
  }

  lemma PushShape<K, V>(l: seq<Entry<K, V>>, key: K, value: V)
    requires Distinct(l) && !Has(l, key)
    ensures Distinct([Entry(key, value)] + l)
  {
    HasIndex(l, key);
  }

  lemma {:induction false} WithoutShape<K, V>(l: seq<Entry<K, V>>, key: K)
    requires Distinct(l)
    ensures Distinct(Without(l, key)) && !Has(Without(l, key), key)
    ensures |Without(l, key)| == |l| - if Has(l, key) then 1 else 0
    ensures !Has(l, key) ==> Without(l, key) == l
  {
    if l != [] {
      var rest := l[1..];
      WithoutShape(rest, key);
      HasIndex(rest, l[0].key);
      if l[0].key != key {
        WithoutKeeps(rest, key, l[0].key);
        PushShape(Without(rest, key), l[0].key, l[0].value);
      }
    }
  }

  lemma {:induction false} PopShape<K, V>(l: seq<Entry<K, V>>, key: K)
    requires Distinct(l) && l != []
    ensures Distinct(PopBack(l)) && (Has(PopBack(l), key) <==> Has(l, key) && l[|l| - 1].key != key)
    ensures Has(PopBack(l), key) ==> Lookup(PopBack(l), key) == Lookup(l, key)
  {
    if |l| > 1 {
      assert PopBack(l)[1..] == PopBack(l[1..]);
      PopShape(l[1..], key);
    }
    if l[|l| - 1].key == key {
      HasIndex(PopBack(l), key);
    }
  }

  /** Every operation keeps the list within capacity and its keys distinct. */
  lemma ApplyListed<K, V>(capacity: nat, l: seq<Entry<K, V>>, op: Op<K, V>)
    requires Listed(capacity, l)
    ensures Listed(capacity, Apply(capacity, l, op))
  {
    match op
    case OpErase(k) => WithoutShape(l, k);
    case OpClear =>
    case OpGet(k) =>
      WithoutShape(l, k);
      HasIndex(l, k);
      if Has(l, k) {
        PushShape(Without(l, k), k, Lookup(l, k).value);
      }
    case OpPut(k, v) =>
      WithoutShape(l, k);
      if capacity > 0 {
        if Has(l, k) {
          PushShape(Without(l, k), k, v);
        } else if |l| == capacity {
          PopShape(l, k);
          PushShape(PopBack(l), k, v);
        } else {
          PushShape(l, k, v);
        }
      }
  }

  lemma {:induction false} RunListed<K, V>(capacity: nat, l: seq<Entry<K, V>>, ops: seq<Op<K, V>>)
    requires Listed(capacity, l)
    ensures Listed(capacity, Run(capacity, l, ops))
    decreases |ops|
  {
    if ops != [] {
      ApplyListed(capacity, l, ops[0]);
      RunListed(capacity, Apply(capacity, l, ops[0]), ops[1..]);
    }
  }

  // ---------------------------------------------------------------- inclusion

  ghost predicate Subseq<T>(a: seq<T>, b: seq<T>)
    decreases |b|
  {
    a == [] || (b != [] && ((a[0] == b[0] && Subseq(a[1..], b[1..])) || Subseq(a, b[1..])))
  }

  lemma {:induction false} SubseqWithout<K, V>(a: seq<Entry<K, V>>, b: seq<Entry<K, V>>, key: K)
    requires Subseq(a, b)
    ensures Subseq(Without(a, key), Without(b, key))
    decreases |b|
  {
    if a != [] {
      if a[0] == b[0] && Subseq(a[1..], b[1..]) {
        SubseqWithout(a[1..], b[1..], key);
        if a[0].key != key {
          SubseqCons(a[0], Without(a[1..], key), Without(b[1..], key));
        }
      } else {
        SubseqWithout(a, b[1..], key);
        if b[0].key != key {
          SubseqSkip(b[0], Without(a, key), Without(b[1..], key));
        }
      }
    }
  }

  lemma SubseqCons<T>(x: T, a: seq<T>, b: seq<T>)
    requires Subseq(a, b)
    ensures Subseq([x] + a, [x] + b)
  {
    assert ([x] + a)[1..] == a && ([x] + b)[1..] == b;
  }

  lemma SubseqSkip<T>(x: T, a: seq<T>, b: seq<T>)
    requires Subseq(a, b)
    ensures Subseq(a, [x] + b)
  {
    assert ([x] + b)[1..] == b;
  }

  lemma {:induction false} SubseqLength<T>(a: seq<T>, b: seq<T>)
    requires Subseq(a, b)
    ensures |a| <= |b|
    decreases |b|
  {
    if a != [] {
      if a[0] == b[0] && Subseq(a[1..], b[1..]) {
        SubseqLength(a[1..], b[1..]);
      } else {
        SubseqLength(a, b[1..]);
      }
    }
  }

  /** Dropping the last element on the left, or on both sides. */
  lemma {:induction false} SubseqPop<T>(a: seq<T>, b: seq<T>)
    requires Subseq(a, b) && a != []
    ensures Subseq(PopBack(a), b) && b != [] && Subseq(PopBack(a), PopBack(b))
    decreases |b|
  {
    if |a| > 1 {
      SubseqLength(a, b);
      assert PopBack(b)[1..] == PopBack(b[1..]);
      if a[0] == b[0] && Subseq(a[1..], b[1..]) {
        SubseqPop(a[1..], b[1..]);
        assert PopBack(a)[1..] == PopBack(a[1..]);
      } else {
        SubseqPop(a, b[1..]);
      }
    }
  }

  lemma {:induction false} SubseqLookup<K, V>(a: seq<Entry<K, V>>, b: seq<Entry<K, V>>, key: K)
    requires Subseq(a, b) && Distinct(b) && Has(a, key)
    ensures Has(b, key) && Lookup(b, key) == Lookup(a, key)
    decreases |b|
  {
    if a[0] == b[0] && Subseq(a[1..], b[1..]) {
      if a[0].key != key {
        SubseqLookup(a[1..], b[1..], key);
      }
    } else {
      SubseqLookup(a, b[1..], key);
      HasIndex(b[1..], key);
    }
  }

  /** The smaller cache's list is contained in the larger's, which has at least as much room left. */
  ghost predicate Included<K, V>(c: nat, c': nat, small: seq<Entry<K, V>>, large: seq<Entry<K, V>>) {
    Listed(c, small) && Listed(c', large) && Subseq(small, large) && |large| - |small| <= c' - c
  }

  lemma IncludedPut<K, V>(c: nat, c': nat, small: seq<Entry<K, V>>, large: seq<Entry<K, V>>, k: K, v: V)
    requires 0 < c <= c' && Included(c, c', small, large)
    ensures Subseq(Put(c, small, k, v), Put(c', large, k, v))
    ensures |Put(c', large, k, v)| - |Put(c, small, k, v)| <= c' - c
  {
    var e := Entry(k, v);
    SubseqWithout(small, large, k);
    WithoutShape(small, k);
    WithoutShape(large, k);
    if Has(small, k) {
      SubseqLookup(small, large, k);
      SubseqCons(e, Without(small, k), Without(large, k));
    } else if Has(large, k) {
      if |small| == c {
        SubseqPop(small, Without(large, k));
        SubseqCons(e, PopBack(small), Without(large, k));
      } else {
        SubseqCons(e, small, Without(large, k));
      }
    } else if |small| == c {
      SubseqPop(small, large);
      SubseqCons(e, PopBack(small), if |large| == c' then PopBack(large) else large);
    } else {
      SubseqCons(e, small, large);
    }
  }

  lemma IncludedGet<K, V>(c: nat, c': nat, small: seq<Entry<K, V>>, large: seq<Entry<K, V>>, k: K)
    requires c <= c' && Included(c, c', small, large)
    ensures Subseq(Get(small, k), Get(large, k)) && |Get(large, k)| - |Get(small, k)| <= c' - c
  {
    SubseqWithout(small, large, k);
    WithoutShape(small, k);
    WithoutShape(large, k);
    HasIndex(small, k);
    HasIndex(large, k);
    if Has(small, k) {
      SubseqLookup(small, large, k);
      SubseqCons(Entry(k, Lookup(small, k).value), Without(small, k), Without(large, k));
    } else if Has(large, k) {
      SubseqSkip(Entry(k, Lookup(large, k).value), small, Without(large, k));
    }
  }

  lemma IncludedStep<K, V>(c: nat, c': nat, small: seq<Entry<K, V>>, large: seq<Entry<K, V>>, op: Op<K, V>)
    requires c <= c' && Included(c, c', small, large)
    ensures Included(c, c', Apply(c, small, op), Apply(c', large, op))
  {
    ApplyListed(c, small, op);
    ApplyListed(c', large, op);
    match op
    case OpGet(k) => IncludedGet(c, c', small, large, k);
    case OpPut(k, v) =>
      if c > 0 {
        IncludedPut(c, c', small, large, k, v);
      }
    case OpErase(k) =>
      SubseqWithout(small, large, k);
      WithoutShape(small, k);
      WithoutShape(large, k);
      if Has(small, k) {
        SubseqLookup(small, large, k);
      }
    case OpClear =>
  }

  lemma {:induction false} IncludedRun<K, V>(c: nat, c': nat, small: seq<Entry<K, V>>, large: seq<Entry<K, V>>, ops: seq<Op<K, V>>)
    requires c <= c' && Included(c, c', small, large)
    ensures Included(c, c', Run(c, small, ops), Run(c', large, ops))
    decreases |ops|
  {
    if ops != [] {
      IncludedStep(c, c', small, large, ops[0]);
      IncludedRun(c, c', Apply(c, small, ops[0]), Apply(c', large, ops[0]), ops[1..]);
    }
  }

  /** LRU inclusion: on any one trace, a smaller cache is a subsequence of a larger one, and each of
      its hits is the same hit there. */
  lemma Inclusion<K, V>(c: nat, c': nat, ops: seq<Op<K, V>>, key: K)
    requires c <= c'
    ensures Subseq(Run(c, [], ops), Run(c', [], ops))
    ensures Lookup(Run(c, [], ops), key).Some? ==> Lookup(Run(c', [], ops), key) == Lookup(Run(c, [], ops), key)
  {
    IncludedRun(c, c', [], [], ops);
    HasIndex(Run(c, [], ops), key);
    if Has(Run(c, [], ops), key) {
      SubseqLookup(Run(c, [], ops), Run(c', [], ops), key);
    }
  }

  /** Get by get over the trace: where the smaller cache hits, the larger hits with the same value. */
  lemma InclusionOfHits<K, V>(c: nat, c': nat, ops: seq<Op<K, V>>, i: nat)
    requires c <= c' && i < |Answers(c, [], ops)|
    ensures |Answers(c', [], ops)| == |Answers(c, [], ops)|
    ensures Answers(c, [], ops)[i].Some? ==> Answers(c', [], ops)[i] == Answers(c, [], ops)[i]
  {
    IncludedAnswers(c, c', [], [], ops);
  }

  lemma {:induction false} IncludedAnswers<K, V>(c: nat, c': nat, small: seq<Entry<K, V>>, large: seq<Entry<K, V>>, ops: seq<Op<K, V>>)
    requires c <= c' && Included(c, c', small, large)
    ensures var a, b := Answers(c, small, ops), Answers(c', large, ops);
            |a| == |b| && forall i :: 0 <= i < |a| && a[i].Some? ==> b[i] == a[i]
    decreases |ops|
  {
    if ops != [] {
      IncludedStep(c, c', small, large, ops[0]);
      IncludedAnswers(c, c', Apply(c, small, ops[0]), Apply(c', large, ops[0]), ops[1..]);
      if ops[0].OpGet? {
        HasIndex(small, ops[0].key);
        if Has(small, ops[0].key) {
          SubseqLookup(small, large, ops[0].key);
        }
      }
    }
  }

  // ---------------------------------------------------------------- retention

  /** The keys more recently used than `key`. */
  function Ahead<K(==), V>(l: seq<Entry<K, V>>, key: K): set<K> {
    if l == [] || l[0].key == key then {} else {l[0].key} + Ahead(l[1..], key)
  }

  /** Neither used, nor erased, nor cleared. */
  ghost predicate Untouched<K, V>(op: Op<K, V>, key: K) {
    !op.OpClear? && op.key != key
  }

  /** The key this operation makes most recent, if any: a put, or a get that hits. */
  function UsedBy<K(==), V>(l: seq<Entry<K, V>>, op: Op<K, V>): set<K> {
    match op
    case OpPut(k, _) => {k}
    case OpGet(k) => if Has(l, k) then {k} else {}
    case _ => {}
  }

  /** The distinct keys used over a run. */
  function Used<K(==), V>(capacity: nat, l: seq<Entry<K, V>>, ops: seq<Op<K, V>>): set<K>
    decreases |ops|
  {
    if ops == [] then {} else UsedBy(l, ops[0]) + Used(capacity, Apply(capacity, l, ops[0]), ops[1..])
  }

  lemma {:induction false} AheadWithout<K, V>(l: seq<Entry<K, V>>, x: K, key: K)
    requires x != key
    ensures Ahead(Without(l, x), key) == Ahead(l, key) - {x}
  {
    if l != [] {
      AheadWithout(l[1..], x, key);
    }
  }

  lemma {:induction false} AheadPop<K, V>(l: seq<Entry<K, V>>, key: K)
    requires l != [] && Has(PopBack(l), key)
    ensures Ahead(PopBack(l), key) == Ahead(l, key)
  {
    if l[0].key != key {
      assert PopBack(l)[1..] == PopBack(l[1..]);
      AheadPop(l[1..], key);
    }
  }

  lemma {:induction false} AheadSize<K, V>(l: seq<Entry<K, V>>, key: K)
    requires Distinct(l) && Has(l, key)
    ensures |Ahead(l, key)| < |l|
    ensures l[|l| - 1].key == key ==> |Ahead(l, key)| == |l| - 1
    ensures forall x :: x in Ahead(l, key) ==> x != key && Has(l, x)
  {
    if l[0].key != key {
      AheadSize(l[1..], key);
      HasIndex(l[1..], l[0].key);
    }
  }

  /** One operation on other keys: either `key` stays, with at most the used key more ahead of it, or
      it was last in a full list and a new key pushed it out. */
  ghost predicate Outlives<K, V>(capacity: nat, l: seq<Entry<K, V>>, op: Op<K, V>, key: K) {
    var l' := Apply(capacity, l, op);
    var seen := Ahead(l, key) + UsedBy(l, op);
    if Has(l', key)
    then Ahead(l', key) <= seen && (!op.OpErase? ==> Ahead(l', key) == seen) && Lookup(l', key) == Lookup(l, key)
    else !op.OpErase? && |seen| >= capacity
  }

  lemma GetOutlives<K, V>(capacity: nat, l: seq<Entry<K, V>>, k: K, key: K)
    requires Listed(capacity, l) && Has(l, key) && k != key
    ensures Outlives(capacity, l, OpGet(k), key)
  {
    HasIndex(l, k);
    WithoutKeeps(l, k, key);
    AheadWithout(l, k, key);
    if Has(l, k) {
      AheadCons(Without(l, k), Entry(k, Lookup(l, k).value), key);
    }
  }

  lemma PutOutlives<K, V>(capacity: nat, l: seq<Entry<K, V>>, k: K, v: V, key: K)
    requires Listed(capacity, l) && Has(l, key) && k != key
    ensures Outlives(capacity, l, OpPut(k, v), key)
  {
    hide Distinct, PopBack;
    AheadSize(l, key);
    if Has(l, k) {
      WithoutKeeps(l, k, key);
      AheadWithout(l, k, key);
      AheadCons(Without(l, k), Entry(k, v), key);
    } else if |l| < capacity {
      AheadCons(l, Entry(k, v), key);
    } else {
      PopShape(l, key);
      AheadCons(PopBack(l), Entry(k, v), key);
      if l[|l| - 1].key != key {
        AheadPop(l, key);
      } else {
        assert k !in Ahead(l, key);
      }
    }
  }

  lemma AheadStep<K, V>(capacity: nat, l: seq<Entry<K, V>>, op: Op<K, V>, key: K)
    requires Listed(capacity, l) && Has(l, key) && Untouched(op, key)
    ensures Outlives(capacity, l, op, key)
  {
    match op
    case OpGet(k) => GetOutlives(capacity, l, k, key);
    case OpPut(k, v) => PutOutlives(capacity, l, k, v, key);
    case OpErase(k) =>
      WithoutKeeps(l, k, key);
      AheadWithout(l, k, key);
  }

  lemma AheadCons<K, V>(l: seq<Entry<K, V>>, e: Entry<K, V>, key: K)
    requires e.key != key
    ensures Ahead([e] + l, key) == {e.key} + Ahead(l, key)
    ensures Has([e] + l, key) == Has(l, key) && Lookup([e] + l, key) == Lookup(l, key)
  {
    assert ([e] + l)[1..] == l;
  }

  /** An absent key stays absent while it is not put. */
  lemma {:induction false} StaysAbsent<K, V>(capacity: nat, l: seq<Entry<K, V>>, ops: seq<Op<K, V>>, key: K)
    requires Listed(capacity, l) && !Has(l, key) && forall op <- ops :: Untouched(op, key)
    ensures !Has(Run(capacity, l, ops), key)
    decreases |ops|
  {
    if ops != [] {
      var op := ops[0];
      assert Untouched(op, key);
      ApplyListed(capacity, l, op);
      WithoutKeeps(l, op.key, key);
      if op.OpPut? {
        AheadCons(Without(l, op.key), Entry(op.key, op.value), key);
        AheadCons(l, Entry(op.key, op.value), key);
        if l != [] {
          PopShape(l, key);
          AheadCons(PopBack(l), Entry(op.key, op.value), key);
        }
      } else if op.OpGet? {
        HasIndex(l, op.key);
        if Has(l, op.key) {
          AheadCons(Without(l, op.key), Entry(op.key, Lookup(l, op.key).value), key);
        }
      }
      StaysAbsent(capacity, Apply(capacity, l, op), ops[1..], key);
    }
  }

  lemma {:induction false} RetentionFrom<K, V>(capacity: nat, l: seq<Entry<K, V>>, ops: seq<Op<K, V>>, key: K)
    requires Listed(capacity, l) && Has(l, key) && forall op <- ops :: Untouched(op, key)
    ensures var l' := Run(capacity, l, ops);
            var seen := Ahead(l, key) + Used(capacity, l, ops);
            && (Has(l', key) ==> Lookup(l', key) == Lookup(l, key))
            && (!Has(l', key) ==> |seen| >= capacity)
            && (!Has(l', key) <== |seen| >= capacity && forall op <- ops :: !op.OpErase?)
    decreases |ops|
  {
    if ops == [] {
      AheadSize(l, key);
      assert Ahead(l, key) + {} == Ahead(l, key);
    } else {
      hide Distinct, Has, Lookup, Apply;
      var op, rest, l1 := ops[0], ops[1..], Apply(capacity, l, ops[0]);
      var used := Used(capacity, l1, rest);
      assert Untouched(op, key);
      AheadStep(capacity, l, op, key);
      ApplyListed(capacity, l, op);
      UnionAssoc(Ahead(l, key), UsedBy(l, op), used);
      if Has(l1, key) {
        RetentionFrom(capacity, l1, rest, key);
        SubsetSize(Ahead(l1, key) + used, (Ahead(l, key) + UsedBy(l, op)) + used);
      } else {
        StaysAbsent(capacity, l1, rest, key);
        SubsetSize(Ahead(l, key) + UsedBy(l, op), (Ahead(l, key) + UsedBy(l, op)) + used);
      }
    }
  }

  lemma UnionAssoc<T>(a: set<T>, b: set<T>, c: set<T>)
    ensures a + (b + c) == (a + b) + c
  {
  }

  lemma {:induction false} SubsetSize<T>(a: set<T>, b: set<T>)
    requires a <= b
    ensures |a| <= |b|
  {
    assert b == a + (b - a);
  }

  /** Retention: from its own last use on, an entry that is not erased survives, value and all, until
      `capacity` distinct other keys have been put or hit; and if nothing is erased meanwhile, it is
      gone exactly from then on. */
  lemma Retention<K, V>(capacity: nat, l: seq<Entry<K, V>>, ops: seq<Op<K, V>>, key: K)
    requires Listed(capacity, l) && l != [] && l[0].key == key
    requires forall op <- ops :: Untouched(op, key)
    ensures |Used(capacity, l, ops)| < capacity ==> Lookup(Run(capacity, l, ops), key) == Some(l[0].value)
    ensures (forall op <- ops :: !op.OpErase?) ==>
              (Has(Run(capacity, l, ops), key) <==> |Used(capacity, l, ops)| < capacity)
  {
    RetentionFrom(capacity, l, ops, key);
    assert {} + Used(capacity, l, ops) == Used(capacity, l, ops);
  }

  // ---------------------------------------------------------------- values

  /** The value last put under `key`, unless erased or cleared since. */
  function LastPut<K(==), V>(ops: seq<Op<K, V>>, key: K): Option<V> {
    if ops == [] then None else
      match ops[|ops| - 1]
      case OpPut(k, v) => if k == key then Some(v) else LastPut(ops[..|ops| - 1], key)
      case OpErase(k) => if k == key then None else LastPut(ops[..|ops| - 1], key)
      case OpClear => None
      case OpGet(_) => LastPut(ops[..|ops| - 1], key)
  }

  /** A hit returns the latest value put under the key; erased and cleared keys miss. */
  lemma {:induction false} HitsAreLatest<K, V>(capacity: nat, ops: seq<Op<K, V>>, key: K)
    ensures var r := Lookup(Run(capacity, [], ops), key); r.Some? ==> r == LastPut(ops, key)
    decreases |ops|
  {
    if ops != [] {
      var n := |ops| - 1;
      var l, op := Run(capacity, [], ops[..n]), ops[n];
      HitsAreLatest(capacity, ops[..n], key);
      RunSnoc(capacity, [], ops[..n], op);
      assert ops[..n] + [op] == ops;
      RunListed(capacity, [], ops[..n]);
      LookupStep(capacity, l, op, key);
    }
  }

  lemma LookupStep<K, V>(capacity: nat, l: seq<Entry<K, V>>, op: Op<K, V>, key: K)
    requires Listed(capacity, l)
    ensures var r := Lookup(Apply(capacity, l, op), key);
            match op
            case OpPut(k, v) => r.Some? ==> r == if k == key then Some(v) else Lookup(l, key)
            case OpErase(k) => r == if k == key then None else Lookup(l, key)
            case OpClear => r == None
            case OpGet(_) => r == Lookup(l, key)
  {
    HasIndex(l, key);
    if !op.OpClear? {
      WithoutShape(l, op.key);
      HasIndex(Without(l, op.key), op.key);
      if op.key != key {
        WithoutKeeps(l, op.key, key);
      }
    }
    if op.OpPut? && l != [] {
      PopShape(l, key);
      HasIndex(PopBack(l), key);
      assert ([Entry(op.key, op.value)] + PopBack(l))[1..] == PopBack(l);
    }
  }
}
