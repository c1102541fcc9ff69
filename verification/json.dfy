/** The JSON values a message body parses to.  An object keeps its members in
    source order; when a key is written twice, reading the property gives the
    last binding and the key is listed once, at its first position, which is
    what `JSON.parse` followed by `Object.keys` yields. */
module Json {
  import opened Wrappers

  datatype Json =
    | JNull
    | JBool(b: bool)
    | JNumber(n: real)
    | JString(s: string)
    | JArray(items: seq<Json>)
    | JObject(members: seq<(string, Json)>)

  type Members = seq<(string, Json)>

  predicate Distinct<T(==)>(s: seq<T>) {
    forall i, j :: 0 <= i < j < |s| ==> s[i] != s[j]
  }

  lemma DistinctConcat<T>(a: seq<T>, b: seq<T>)
    requires Distinct(a) && Distinct(b)
    requires forall x :: x in a ==> x !in b
    ensures Distinct(a + b)
  {
    forall i, j | 0 <= i < j < |a + b|
      ensures (a + b)[i] != (a + b)[j]
    {
      if j >= |a| && i < |a| {
        assert (a + b)[i] in a && (a + b)[j] in b;
      }
    }
  }

  /** The object has an own property named `key`. */
  predicate HasKey(ms: Members, key: string) {
    exists i :: 0 <= i < |ms| && ms[i].0 == key
  }

  /** Property read `obj[key]`: the last binding of `key`, or `undefined` (None). */
  function Get(ms: Members, key: string): (r: Option<Json>)
    ensures r.Some? <==> HasKey(ms, key)
  {
    if |ms| == 0 then None
    else if ms[|ms| - 1].0 == key then Some(ms[|ms| - 1].1)
    else
      var r := Get(ms[..|ms| - 1], key);
      assert HasKey(ms, key) ==> HasKey(ms[..|ms| - 1], key) by {
        if HasKey(ms, key) {
          var i :| 0 <= i < |ms| && ms[i].0 == key;
          assert ms[..|ms| - 1][i].0 == key;
        }
      }
      r
  }

  /** `Object.keys(obj)`: every key once, in order of first appearance. */
  function Keys(ms: Members): (ks: seq<string>)
    ensures Distinct(ks)
    ensures forall k :: k in ks <==> HasKey(ms, k)
  {
    if |ms| == 0 then []
    else
      var prefix := ms[..|ms| - 1];
      var ks := Keys(prefix);
      var k := ms[|ms| - 1].0;
      assert forall k' :: HasKey(ms, k') <==> HasKey(prefix, k') || k' == k by {
        forall k' | HasKey(ms, k')
          ensures HasKey(prefix, k') || k' == k
        {
          var i :| 0 <= i < |ms| && ms[i].0 == k';
          if i < |ms| - 1 { assert prefix[i].0 == k'; }
        }
        forall k' | HasKey(prefix, k')
          ensures HasKey(ms, k')
        {
          var i :| 0 <= i < |prefix| && prefix[i].0 == k';
          assert ms[i].0 == k';
        }
      }
      if k in ks then ks else ks + [k]
  }

  /** Member `i` is the last one that binds `key`. */
  predicate BindsLast(ms: Members, key: string, i: int) {
    0 <= i < |ms| && ms[i].0 == key && forall j :: i < j < |ms| ==> ms[j].0 != key
  }

  /** A property read sees the member that binds the key last. */
  lemma {:induction false} GetLast(ms: Members, key: string) returns (i: nat)
    requires HasKey(ms, key)
    ensures BindsLast(ms, key, i) && ms[i].1 == Get(ms, key).value
  {
    var n := |ms| - 1;
    if ms[n].0 == key {
      i := n;
    } else {
      var prefix := ms[..n];
      var w :| 0 <= w < |ms| && ms[w].0 == key;
      assert prefix[w].0 == key;
      i := GetLast(prefix, key);
      assert ms[i] == prefix[i];
    }
  }

  /** Conversely, the member that binds the key last is the one a read sees. */
  lemma ReadLast(ms: Members, key: string, i: nat)
    requires BindsLast(ms, key, i)
    ensures Get(ms, key) == Some(ms[i].1)
  {
    var w := GetLast(ms, key);
  }

  /** Appending a member makes it the binding that property reads see. */
  lemma {:induction false} GetAppend(ms: Members, key: string, v: Json, other: string)
    ensures Get(ms + [(key, v)], other) == if other == key then Some(v) else Get(ms, other)
  {
    assert (ms + [(key, v)])[..|ms|] == ms;
  }
}
