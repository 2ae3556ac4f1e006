/** The key-to-value mapping a skip list stands for, and how insertion changes it. */
module KeyValueMap {

  type Pair = (string, string)

  /** `insert_element` on the mapping: an absent key gains the value, a present key keeps
      the value it has. */
  function InsertIfAbsent(m: map<string, string>, k: string, v: string): (r: map<string, string>)
    ensures r.Keys == m.Keys + {k}
    ensures k in m ==> r[k] == m[k]
    ensures k !in m ==> r[k] == v
    ensures forall j :: j in m && j != k ==> r[j] == m[j]
  {
    if k in m then m else m[k := v]
  }

  /** The mapping held by a list of pairs; when a key occurs twice, the earlier pair wins. */
  function MapOf(ps: seq<Pair>): (r: map<string, string>)
    ensures r.Keys == set i | 0 <= i < |ps| :: ps[i].0
  {
    if ps == [] then map[]
    else
      var rest := MapOf(ps[1..]);
      assert rest.Keys == set i | 1 <= i < |ps| :: ps[i].0 by {
        forall k | k in rest.Keys
          ensures k in set i | 1 <= i < |ps| :: ps[i].0
        {
          var i :| 0 <= i < |ps[1..]| && ps[1..][i].0 == k;
          assert ps[i + 1].0 == k;
        }
        forall k | k in set i | 1 <= i < |ps| :: ps[i].0
          ensures k in rest.Keys
        {
          var i :| 1 <= i < |ps| && ps[i].0 == k;
          assert ps[1..][i - 1].0 == k;
        }
      }
      rest[ps[0].0 := ps[0].1]
  }

  /** Keys occur at most once. */
  ghost predicate DistinctKeys(ps: seq<Pair>)
  {
    forall i, j :: 0 <= i < j < |ps| ==> ps[i].0 != ps[j].0
  }

  /** Putting a pair with a fresh key anywhere into the list adds exactly that entry. */
  lemma {:induction false} MapOfInsert(a: seq<Pair>, e: Pair, b: seq<Pair>)
    requires e.0 !in MapOf(a + b)
    ensures MapOf(a + [e] + b) == MapOf(a + b)[e.0 := e.1]
  {
    if a == [] {
      assert a + [e] + b == [e] + b && a + b == b;
      assert ([e] + b)[1..] == b;
    } else {
      assert (a + [e] + b)[1..] == a[1..] + [e] + b;
      assert (a + b)[1..] == a[1..] + b;
      assert (a + [e] + b)[0] == a[0] && (a + b)[0] == a[0];
      assert e.0 !in MapOf(a[1..] + b);
      MapOfInsert(a[1..], e, b);
      assert e.0 != a[0].0;
    }
  }

  /** Adding an absent key and taking it out again gives back the mapping. */
  lemma AddThenRemove(m: map<string, string>, k: string, v: string)
    requires k !in m
    ensures m[k := v] - {k} == m
  {
  }

  /** A list of pairs with distinct keys maps as many keys as it has pairs. */
  lemma {:induction false} MapOfSize(ps: seq<Pair>)
    requires DistinctKeys(ps)
    ensures |MapOf(ps)| == |ps|
  {
    if ps != [] {
      var rest := ps[1..];
      assert DistinctKeys(rest) by {
        forall i, j | 0 <= i < j < |rest|
          ensures rest[i].0 != rest[j].0
        {
          assert rest[i] == ps[i + 1] && rest[j] == ps[j + 1];
        }
      }
      MapOfSize(rest);
    }
  }
}
