/**
 * A PHP array with string keys, as the builder's `$set` uses it: an ordered
 * list of key/value pairs. Writing `$a[$k] = $v` replaces the value of an
 * existing key where it stands and appends a new key at the end.
 */
module PhpArray {
  import opened Wrappers

  type Pairs = seq<(string, string)>

  /** `array_keys`. */
  function Keys(p: Pairs): (ks: seq<string>)
    ensures |ks| == |p|
    ensures forall i :: 0 <= i < |p| ==> ks[i] == p[i].0
  {
    seq(|p|, i requires 0 <= i < |p| => p[i].0)
  }

  /** The values in the array's order (what `implode` walks over). */
  function Values(p: Pairs): (vs: seq<string>)
    ensures |vs| == |p|
    ensures forall i :: 0 <= i < |p| ==> vs[i] == p[i].1
  {
    seq(|p|, i requires 0 <= i < |p| => p[i].1)
  }

  /** No key occurs twice, as in every PHP array. */
  predicate DistinctKeys(p: Pairs)
  {
    forall i, j :: 0 <= i < j < |p| ==> p[i].0 != p[j].0
  }

  /** `$a[$k]`, or `None` when the key is absent. */
  function Lookup(p: Pairs, k: string): (r: Option<string>)
    ensures r.Some? <==> k in Keys(p)
    decreases |p|
  {
    if p == [] then None
    else if p[0].0 == k then Some(p[0].1)
    else
      assert Keys(p) == [p[0].0] + Keys(p[1..]);
      Lookup(p[1..], k)
  }

  /** `$a[$k] = $v`. */
  function Put(p: Pairs, k: string, v: string): (r: Pairs)
    ensures |p| <= |r| <= |p| + 1
    decreases |p|
  {
    if p == [] then [(k, v)]
    else if p[0].0 == k then [(k, v)] + p[1..]
    else [p[0]] + Put(p[1..], k, v)
  }

  /** `$a[$k] = $v` keeps the keys and their order, appending `k` when it is new. */
  lemma {:induction false} PutKeys(p: Pairs, k: string, v: string)
    ensures Keys(Put(p, k, v)) == if k in Keys(p) then Keys(p) else Keys(p) + [k]
    decreases |p|
  {
    if p != [] {
      KeysCons(p[0], p[1..]);
      assert [p[0]] + p[1..] == p;
      if p[0].0 == k {
        KeysCons((k, v), p[1..]);
      } else {
        var rest := Put(p[1..], k, v);
        PutKeys(p[1..], k, v);
        KeysCons(p[0], rest);
      }
    }
  }

  /** The keys of a pair followed by more pairs. */
  lemma KeysCons(x: (string, string), rest: Pairs)
    ensures Keys([x] + rest) == [x.0] + Keys(rest)
  {
    assert Keys([x] + rest)[0] == x.0;
  }

  /** After `$a[$k] = $v`, key `k` holds `v` and every other key its old value. */
  lemma {:induction false} PutLookup(p: Pairs, k: string, v: string, k': string)
    ensures Lookup(Put(p, k, v), k') == if k' == k then Some(v) else Lookup(p, k')
    decreases |p|
  {
    if p != [] && p[0].0 != k {
      PutLookup(p[1..], k, v, k');
      assert ([p[0]] + Put(p[1..], k, v))[1..] == Put(p[1..], k, v);
    } else if p != [] {
      assert ([(k, v)] + p[1..])[1..] == p[1..];
    }
  }

  /** Writing one key keeps the keys distinct. */
  lemma PutDistinct(p: Pairs, k: string, v: string)
    requires DistinctKeys(p)
    ensures DistinctKeys(Put(p, k, v))
  {
    var r := Put(p, k, v);
    PutKeys(p, k, v);
    forall i, j | 0 <= i < j < |r| ensures r[i].0 != r[j].0 {
      assert Keys(r)[i] == r[i].0 && Keys(r)[j] == r[j].0;
      if j < |p| {
        assert Keys(p)[i] == p[i].0 && Keys(p)[j] == p[j].0;
      }
    }
  }
}
