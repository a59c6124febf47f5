/** A string-keyed JavaScript object used as a dictionary
    (`{ [id: string]: V }`). Besides the key-to-value map it keeps the
    order in which keys were first inserted, which is the order
    `Object.keys` reports for the non-numeric keys this program uses
    (`genId` ids contain a `.`). Assigning to an existing key keeps its
    position. */
module Dict {
  import opened Wrappers

  type Key = string

  datatype RawDict<V> = RawDict(keys: seq<Key>, vals: map<Key, V>)

  /** Keys are listed once each, and exactly the mapped keys are listed. */
  ghost predicate WellFormed<V>(d: RawDict<V>) {
    && (forall i, j :: 0 <= i < j < |d.keys| ==> d.keys[i] != d.keys[j])
    && (forall k :: k in d.vals <==> k in d.keys)
  }

  type Dict<V> = d: RawDict<V> | WellFormed(d) witness RawDict([], map[])

  function Empty<V>(): (d: Dict<V>)
    ensures d.keys == [] && d.vals == map[]
  {
    RawDict([], map[])
  }

  /** `d[k]`, with `undefined` as `None`. */
  function Get<V>(d: Dict<V>, k: Key): Option<V> {
    if k in d.vals then Some(d.vals[k]) else None
  }

  /** `d[k] = v`. */
  function Put<V>(d: Dict<V>, k: Key, v: V): (r: Dict<V>)
    ensures r.vals == d.vals[k := v]
    ensures k in d.vals ==> r.keys == d.keys
    ensures k !in d.vals ==> r.keys == d.keys + [k]
  {
    var keys := if k in d.vals then d.keys else d.keys + [k];
    var r := RawDict(keys, d.vals[k := v]);
    assert WellFormed(r) by {
      if k !in d.vals {
        assert k !in d.keys;
        forall i, j | 0 <= i < j < |keys| ensures keys[i] != keys[j] {
          if j == |d.keys| {
            assert keys[i] == d.keys[i];
          }
        }
      }
    }
    r
  }

  /** `Object.keys(d).map(k => d[k])`. */
  function Values<V>(d: Dict<V>): (vs: seq<V>)
    ensures |vs| == |d.keys|
    ensures forall i :: 0 <= i < |d.keys| ==> d.keys[i] in d.vals && vs[i] == d.vals[d.keys[i]]
  {
    seq(|d.keys|, i requires 0 <= i < |d.keys| => d.vals[d.keys[i]])
  }

  /** Assigns the entries of `src`, listed by `ks`, one after another. */
  function PutAll<V>(d: Dict<V>, ks: seq<Key>, src: map<Key, V>): (r: Dict<V>)
    requires forall k :: k in ks ==> k in src
    ensures r.vals.Keys == d.vals.Keys + set k | k in ks
    ensures forall k :: k in r.vals ==> r.vals[k] == if k in ks then src[k] else d.vals[k]
    decreases |ks|
  {
    if ks == [] then d
    else PutAll(Put(d, ks[0], src[ks[0]]), ks[1..], src)
  }

  /** The spread `{ ...a, ...b }`: the keys of `a` in their order, then the
      new keys of `b`; on a clash the value of `b` wins. */
  function Merge<V>(a: Dict<V>, b: Dict<V>): (r: Dict<V>)
    ensures r.vals.Keys == a.vals.Keys + b.vals.Keys
    ensures forall k :: k in b.vals ==> r.vals[k] == b.vals[k]
    ensures forall k :: k in a.vals && k !in b.vals ==> r.vals[k] == a.vals[k]
  {
    PutAll(a, b.keys, b.vals)
  }

  /** The same keys, in the same order, with `f` applied to every value. */
  function MapValues<V, W>(d: Dict<V>, f: V -> W): (r: Dict<W>)
    ensures r.keys == d.keys
    ensures r.vals.Keys == d.vals.Keys
    ensures forall k :: k in d.vals ==> r.vals[k] == f(d.vals[k])
  {
    RawDict(d.keys, map k | k in d.vals :: f(d.vals[k]))
  }

  /** Assigning one key never moves the others nor changes their values. */
  lemma PutFrame<V>(d: Dict<V>, k: Key, v: V, k': Key)
    requires k' != k
    ensures Get(Put(d, k, v), k') == Get(d, k')
    ensures Get(Put(d, k, v), k) == Some(v)
  {
  }
}
