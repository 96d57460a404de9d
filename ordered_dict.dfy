/**
 * A JavaScript plain object used as a string-keyed dictionary: assignment
 * adds a new key at the end of the enumeration order and leaves the position
 * of an existing key where it is; `for (const key in obj)` visits `keys`.
 */
module OrderedDict {

  datatype Dict<V> = Dict(keys: seq<string>, vals: map<string, V>)

  /** The keys are distinct and are exactly the keys that have a value. */
  ghost predicate Valid<V>(d: Dict<V>)
  {
    && (forall i, j :: 0 <= i < j < |d.keys| ==> d.keys[i] != d.keys[j])
    && (forall k :: k in d.vals <==> k in d.keys)
  }

  /** `{}`. */
  function Empty<V>(): (r: Dict<V>)
    ensures Valid(r) && r.keys == [] && r.vals == map[]
  {
    Dict([], map[])
  }

  /** `obj[k] = v`. */
  function Put<V>(d: Dict<V>, k: string, v: V): (r: Dict<V>)
    ensures Valid(d) ==> Valid(r)
    ensures r.vals == d.vals[k := v]
    ensures k in d.vals ==> r.keys == d.keys
    ensures k !in d.vals ==> r.keys == d.keys + [k]
  {
    Dict(if k in d.vals then d.keys else d.keys + [k], d.vals[k := v])
  }

  /** The distinct elements of `ks` in the order of their first occurrence. */
  function FirstSeen(ks: seq<string>): (r: seq<string>)
    ensures forall k :: k in r <==> k in ks
    ensures forall i, j :: 0 <= i < j < |r| ==> r[i] != r[j]
  {
    if ks == [] then []
    else
      var p := FirstSeen(ks[..|ks| - 1]);
      var k := ks[|ks| - 1];
      assert forall x :: x in ks <==> x in ks[..|ks| - 1] || x == k;
      if k in p then p else p + [k]
  }

  /** A sequence without repetitions is its own first-occurrence order. */
  lemma {:induction false} FirstSeenDistinct(ks: seq<string>)
    requires forall i, j :: 0 <= i < j < |ks| ==> ks[i] != ks[j]
    ensures FirstSeen(ks) == ks
  {
    if ks != [] {
      var pre := ks[..|ks| - 1];
      FirstSeenDistinct(pre);
      assert ks[|ks| - 1] !in pre;
      assert pre + [ks[|ks| - 1]] == ks;
    }
  }

  /** `FirstSeen(ks)` lists every key before any key whose first occurrence in `ks` comes later. */
  lemma {:induction false} FirstSeenOrder(ks: seq<string>, i: nat, j: nat)
    requires i < j < |ks|
    requires forall m :: 0 <= m < j ==> ks[m] != ks[j]
    requires forall m :: 0 <= m < i ==> ks[m] != ks[i]
    ensures exists a, b :: 0 <= a < b < |FirstSeen(ks)| && FirstSeen(ks)[a] == ks[i] && FirstSeen(ks)[b] == ks[j]
  {
    var pre := ks[..|ks| - 1];
    var p := FirstSeen(pre);
    if j < |ks| - 1 {
      FirstSeenOrder(pre, i, j);
      var a, b :| 0 <= a < b < |p| && p[a] == ks[i] && p[b] == ks[j];
      assert FirstSeen(ks)[..|p|] == p;
    } else {
      assert ks[j] !in pre;
      assert ks[i] in pre;
      var a :| 0 <= a < |p| && p[a] == ks[i];
      assert FirstSeen(ks) == p + [ks[j]];
      assert FirstSeen(ks)[|p|] == ks[j];
    }
  }

}
