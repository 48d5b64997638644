/**
 A plain JavaScript object seen as an ordered dictionary: a sequence of
 (key, value) pairs in insertion order, which is the order `for…in` and
 `Object.keys` visit them in. Property assignment `o[k] = v` overwrites the
 value in place when `k` is already a key and appends a new pair otherwise.
 */
module JsObjects {
  import opened Options

  type Dict<V> = seq<(string, V)>

  /** No key occurs twice: what every object built by property assignment satisfies. */
  ghost predicate DistinctKeys<V>(d: Dict<V>) {
    forall i, j :: 0 <= i < j < |d| ==> d[i].0 != d[j].0
  }

  /** The keys, in insertion order (`Object.keys`). */
  function Keys<V>(d: Dict<V>): (ks: seq<string>)
    ensures |ks| == |d|
    ensures forall i :: 0 <= i < |d| ==> ks[i] == d[i].0
  {
    if |d| == 0 then [] else Keys(d[..|d| - 1]) + [d[|d| - 1].0]
  }

  /** The position of key `k`, if `k` is a key. */
  function IndexOf<V>(d: Dict<V>, k: string): (r: Option<nat>)
    ensures r.Some? ==> r.value < |d| && d[r.value].0 == k
  {
    IndexFromFirst(d, k, 0);
    IndexFrom(d, k, 0)
  }

  /** `IndexOf` finds the first position holding the key, and nothing exactly when no position does. */
  lemma IndexOfFirst<V>(d: Dict<V>, k: string)
    ensures IndexOf(d, k).Some? ==> forall j :: 0 <= j < IndexOf(d, k).value ==> d[j].0 != k
    ensures IndexOf(d, k).None? <==> forall j :: 0 <= j < |d| ==> d[j].0 != k
  {
    IndexFromFirst(d, k, 0);
  }

  /** The first position at or after `i` that holds key `k`. */
  function IndexFrom<V>(d: Dict<V>, k: string, i: nat): Option<nat>
    requires i <= |d|
    decreases |d| - i
  {
    if i == |d| then None
    else if d[i].0 == k then Some(i)
    else IndexFrom(d, k, i + 1)
  }

  /** The search from `i` finds the first position at or after `i` holding the key. */
  lemma {:induction false} IndexFromFirst<V>(d: Dict<V>, k: string, i: nat)
    requires i <= |d|
    ensures var r := IndexFrom(d, k, i);
      && (r.Some? ==> i <= r.value < |d| && d[r.value].0 == k)
      && (r.Some? ==> forall j :: i <= j < r.value ==> d[j].0 != k)
      && (r.None? <==> forall j :: i <= j < |d| ==> d[j].0 != k)
    decreases |d| - i
  {
    if i < |d| && d[i].0 != k {
      IndexFromFirst(d, k, i + 1);
    }
  }

  /** Property read `o[k]`; `None` stands for `undefined`. */
  function Get<V>(d: Dict<V>, k: string): Option<V> {
    match IndexOf(d, k)
    case None => None
    case Some(i) => Some(d[i].1)
  }

  /** Property assignment `o[k] = v`. */
  function Put<V>(d: Dict<V>, k: string, v: V): (r: Dict<V>)
    ensures Get(r, k) == Some(v)
    ensures forall k' :: k' != k ==> Get(r, k') == Get(d, k')
    ensures forall p :: p in r ==> p in d || p == (k, v)
  {
    match IndexOf(d, k)
    case Some(i) =>
      OverwriteFacts(d, i, v);
      d[i := (k, v)]
    case None =>
      AppendFacts(d, k, v);
      d + [(k, v)]
  }

  /** Assignment keeps keys distinct. */
  lemma PutDistinct<V>(d: Dict<V>, k: string, v: V)
    requires DistinctKeys(d)
    ensures DistinctKeys(Put(d, k, v))
  {
    match IndexOf(d, k)
    case Some(i) =>
      OverwriteFacts(d, i, v);
    case None =>
      AppendFacts(d, k, v);
  }

  /** What overwriting the pair at position `i` with its own key does to reads. */
  lemma OverwriteFacts<V>(d: Dict<V>, i: nat, v: V)
    requires i < |d| && IndexOf(d, d[i].0) == Some(i)
    ensures var r := d[i := (d[i].0, v)];
      && Get(r, d[i].0) == Some(v)
      && (forall k' :: k' != d[i].0 ==> Get(r, k') == Get(d, k'))
      && (DistinctKeys(d) ==> DistinctKeys(r))
      && (forall p :: p in r ==> p in d || p == (d[i].0, v))
  {
    var k := d[i].0;
    var r := d[i := (k, v)];
    KeysAgreeSameIndex(d, r, k);
    forall k' | k' != k ensures Get(r, k') == Get(d, k') {
      KeysAgreeSameIndex(d, r, k');
    }
  }

  /** What appending a pair with a fresh key does to reads. */
  lemma AppendFacts<V>(d: Dict<V>, k: string, v: V)
    requires IndexOf(d, k).None?
    ensures var r := d + [(k, v)];
      && Get(r, k) == Some(v)
      && (forall k' :: k' != k ==> Get(r, k') == Get(d, k'))
      && (DistinctKeys(d) ==> DistinctKeys(r))
      && (forall p :: p in r ==> p in d || p == (k, v))
  {
    var r := d + [(k, v)];
    IndexOfFirst(d, k);
    IndexOfFirst(r, k);
    assert r[|d|].0 == k;
    assert forall j :: 0 <= j < |d| ==> r[j] == d[j];
    assert IndexOf(r, k) == Some(|d|);
    forall k' | k' != k ensures Get(r, k') == Get(d, k') {
      assert r[|d|].0 != k';
      PrefixIndexOf(d, r, k');
    }
  }

  /** Two dictionaries holding the key at the same positions find it at the same position. */
  lemma KeysAgreeSameIndex<V>(d: Dict<V>, r: Dict<V>, k: string)
    requires |d| == |r| && forall j :: 0 <= j < |d| ==> (d[j].0 == k <==> r[j].0 == k)
    ensures IndexOf(r, k) == IndexOf(d, k)
  {
    IndexOfFirst(d, k);
    IndexOfFirst(r, k);
  }

  /** Pairs appended without the key do not change where it is found. */
  lemma PrefixIndexOf<V>(d: Dict<V>, r: Dict<V>, k: string)
    requires |d| < |r| && d == r[..|d|]
    requires forall j :: |d| <= j < |r| ==> r[j].0 != k
    ensures IndexOf(r, k) == IndexOf(d, k)
  {
    forall j | 0 <= j < |d| ensures r[j] == d[j] {
      assert r[..|d|][j] == r[j];
    }
    IndexOfFirst(d, k);
    IndexOfFirst(r, k);
    match IndexOf(d, k)
    case None =>
      assert forall j :: 0 <= j < |r| ==> r[j].0 != k;
    case Some(i) =>
      assert r[i].0 == k;
      assert forall j :: 0 <= j < i ==> r[j].0 != k;
  }

  /** Assigning a value under an existing key changes only that position. */
  lemma PutExisting<V>(d: Dict<V>, i: nat, v: V)
    requires DistinctKeys(d) && i < |d|
    ensures Put(d, d[i].0, v) == d[i := (d[i].0, v)]
  {
    IndexOfFirst(d, d[i].0);
    assert IndexOf(d, d[i].0) == Some(i);
  }

  /** Assigning under a fresh key appends a pair at the end. */
  lemma PutFresh<V>(d: Dict<V>, k: string, v: V)
    requires Get(d, k).None?
    ensures Put(d, k, v) == d + [(k, v)]
  {
  }

  /** With distinct keys, reading the key stored at position `i` finds that position. */
  lemma GetAt<V>(d: Dict<V>, i: nat)
    requires DistinctKeys(d) && i < |d|
    ensures Get(d, d[i].0) == Some(d[i].1)
  {
    IndexOfFirst(d, d[i].0);
    assert IndexOf(d, d[i].0) == Some(i);
  }

  /** Assignment to an existing key keeps the key order; a new key is appended to it. */
  lemma PutKeys<V>(d: Dict<V>, k: string, v: V)
    ensures Keys(Put(d, k, v)) == if Get(d, k).Some? then Keys(d) else Keys(d) + [k]
  {
    var r := Put(d, k, v);
    match IndexOf(d, k)
    case Some(i) =>
      assert r == d[i := (k, v)];
      assert Keys(r) == Keys(d);
    case None =>
      assert r == d + [(k, v)];
      assert Keys(r) == Keys(d) + [k];
  }

  /** A read finds something exactly when the key is one of the keys. */
  lemma GetSomeIff<V>(d: Dict<V>, k: string)
    ensures Get(d, k).Some? <==> exists i :: 0 <= i < |d| && d[i].0 == k
  {
    IndexOfFirst(d, k);
  }
}
