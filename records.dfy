/**
 * Plain JavaScript objects used as dictionaries: each own string key occurs
 * once, and `Object.entries` lists the entries in insertion order.
 */
module Records {
  import opened Wrappers

  predicate UniqueKeys<V>(r: seq<(string, V)>) {
    forall i, j :: 0 <= i < j < |r| ==> r[i].0 != r[j].0
  }

  type Record<V> = r: seq<(string, V)> | UniqueKeys(r) witness []

  /** `Object.keys(r)`. */
  function Keys<V>(r: seq<(string, V)>): (ks: seq<string>)
    ensures |ks| == |r|
    ensures forall i :: 0 <= i < |r| ==> ks[i] == r[i].0
  {
    seq(|r|, i requires 0 <= i < |r| => r[i].0)
  }

  /** The position of key `k`, or -1. */
  function Find<V>(r: seq<(string, V)>, k: string): (i: int)
    ensures -1 <= i < |r|
    ensures i == -1 <==> forall j :: 0 <= j < |r| ==> r[j].0 != k
    ensures i >= 0 ==> r[i].0 == k
  {
    if |r| == 0 then -1
    else if r[0].0 == k then 0
    else
      var j := Find(r[1..], k);
      if j == -1 then -1 else j + 1
  }

  /** `r[k]`, with `None` for a key the object does not have. */
  function Get<V>(r: Record<V>, k: string): Option<V> {
    var i := Find(r, k);
    if i == -1 then None else Some(r[i].1)
  }

  lemma GetAt<V>(r: Record<V>, i: int)
    requires 0 <= i < |r|
    ensures Get(r, r[i].0) == Some(r[i].1)
  {
  }

  lemma GetMissing<V>(r: Record<V>, k: string)
    requires k !in Keys(r)
    ensures Get(r, k) == None
  {
  }

  /** `r[k] = v`: a new key is appended, an existing one keeps its place. */
  function Put<V>(r: Record<V>, k: string, v: V): (r': Record<V>)
    ensures Get(r', k) == Some(v)
    ensures forall k' :: k' != k ==> Get(r', k') == Get(r, k')
    ensures Keys(r') == if k in Keys(r) then Keys(r) else Keys(r) + [k]
  {
    var i := Find(r, k);
    if i == -1 then
      var r' := r + [(k, v)];
      assert Keys(r') == Keys(r) + [k];
      assert k !in Keys(r);
      forall k' | k' != k ensures Get(r', k') == Get(r, k') {
        var j := Find(r, k');
        if j != -1 {
          GetAt(r', j);
        } else {
          GetMissing(r, k');
          assert k' !in Keys(r');
          GetMissing(r', k');
        }
      }
      GetAt(r', |r|);
      r'
    else
      var r' := r[i := (k, v)];
      assert Keys(r') == Keys(r);
      forall k' | k' != k ensures Get(r', k') == Get(r, k') {
        var j := Find(r, k');
        if j != -1 {
          GetAt(r', j);
        } else {
          GetMissing(r, k');
          GetMissing(r', k');
        }
      }
      GetAt(r', i);
      assert k in Keys(r);
      r'
  }

  /** Setting a key the object lacks appends the entry. */
  lemma PutAppends<V>(r: Record<V>, k: string, v: V)
    requires k !in Keys(r)
    ensures Put(r, k, v) == r + [(k, v)]
  {
  }

  /** No earlier entry has the key of entry `i`. */
  lemma KeyFresh<V>(r: Record<V>, i: int)
    requires 0 <= i < |r|
    ensures r[i].0 !in Keys(r[..i])
  {
    forall j | 0 <= j < i ensures Keys(r[..i])[j] != r[i].0 {
      assert Keys(r[..i])[j] == r[j].0;
    }
  }

  /** The keys of `ks` that `seen` does not hold, in the order of `ks`. */
  function Fresh(ks: seq<string>, seen: seq<string>): (r: seq<string>)
    ensures forall x :: x in r <==> x in ks && x !in seen
  {
    if |ks| == 0 then []
    else Fresh(ks[..|ks| - 1], seen) + (if ks[|ks| - 1] in seen then [] else [ks[|ks| - 1]])
  }

  /** `{ ...a, ...b }`: the entries of `b` put into `a` one after the other. */
  function Assign<V>(a: Record<V>, b: Record<V>): Record<V>
    decreases |b|
  {
    if |b| == 0 then a
    else
      var init: Record<V> := b[..|b| - 1];
      Put(Assign(a, init), b[|b| - 1].0, b[|b| - 1].1)
  }

  /** Dropping the last entry changes the lookup of no other key. */
  lemma GetInit<V>(b: Record<V>)
    requires |b| > 0
    ensures forall k :: k != b[|b| - 1].0 ==> Get(b, k) == Get(b[..|b| - 1], k)
  {
    var n := |b| - 1;
    var init: Record<V> := b[..n];
    forall k | k != b[n].0 ensures Get(b, k) == Get(init, k) {
      var j := Find(b, k);
      if j != -1 {
        GetAt(init, j);
        GetAt(b, j);
      } else {
        GetMissing(b, k);
        assert k !in Keys(init);
        GetMissing(init, k);
      }
    }
  }

  /** Spread precedence: a key of `b` takes `b`'s value, any other key keeps `a`'s. */
  lemma {:induction false} AssignGet<V>(a: Record<V>, b: Record<V>)
    ensures forall k :: Get(Assign(a, b), k) == if Get(b, k).Some? then Get(b, k) else Get(a, k)
    decreases |b|
  {
    if |b| > 0 {
      var n := |b| - 1;
      var init: Record<V> := b[..n];
      AssignGet(a, init);
      GetAt(b, n);
      GetInit(b);
    }
  }

  /** Spread order: the keys of `a` stay first, in their order, followed by the
      keys of `b` that `a` lacks, in `b`'s order. */
  lemma {:induction false} AssignKeys<V>(a: Record<V>, b: Record<V>)
    ensures Keys(Assign(a, b)) == Keys(a) + Fresh(Keys(b), Keys(a))
    decreases |b|
  {
    if |b| > 0 {
      var n := |b| - 1;
      var init: Record<V> := b[..n];
      var kn := b[n].0;
      var mid := Assign(a, init);
      var newKeys := Fresh(Keys(init), Keys(a));
      AssignKeys(a, init);
      assert Keys(b)[..n] == Keys(init);
      assert Keys(b)[n] == kn;
      assert kn !in Keys(init);
      assert kn !in newKeys;
      if kn in Keys(a) {
        assert Fresh(Keys(b), Keys(a)) == newKeys;
        assert Keys(Assign(a, b)) == Keys(mid);
      } else {
        assert Fresh(Keys(b), Keys(a)) == newKeys + [kn];
        assert Keys(Assign(a, b)) == Keys(mid) + [kn];
        assert Keys(a) + (newKeys + [kn]) == (Keys(a) + newKeys) + [kn];
      }
    }
  }
}
