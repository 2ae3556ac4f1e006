/** The abstract shape of a skip list: the base list as a sequence of nodes in key order,
    and every higher level as the sub-sequence of nodes tall enough to reach it. */
module Levels {
  import opened KeyOrder
  import opened Nodes
  import opened KeyValueMap

  /** Keys strictly increase along `s`. */
  ghost predicate Sorted(s: seq<Node>)
  {
    forall i, j :: 0 <= i < j < |s| ==> Less(s[i].key, s[j].key)
  }

  function KeysOf(s: seq<Node>): seq<string>
  {
    seq(|s|, i requires 0 <= i < |s| => s[i].key)
  }

  /** The key/value pairs stored in `s`, in order. */
  function PairsOf(s: seq<Node>): (ps: seq<Pair>)
    reads s
    ensures |ps| == |s|
    ensures forall i :: 0 <= i < |s| ==> ps[i] == (s[i].key, s[i].value)
  {
    if s == [] then [] else [(s[0].key, s[0].value)] + PairsOf(s[1..])
  }

  /** No level above the tallest node holds anything. */
  lemma {:induction false} LevelAboveEmpty(s: seq<Node>, l: nat)
    requires forall i :: 0 <= i < |s| ==> s[i].nodeLevel < l
    ensures Level(s, l) == []
  {
    if s != [] {
      LevelAboveEmpty(s[1..], l);
    }
  }

  /** The nodes of `s` that take part in level `l`, in the order of `s`. */
  function Level(s: seq<Node>, l: nat): (r: seq<Node>)
    ensures |r| <= |s|
  {
    if s == [] then []
    else if s[0].nodeLevel >= l then [s[0]] + Level(s[1..], l)
    else Level(s[1..], l)
  }

  /** The length of the longest prefix of `s` whose keys are all below `k`: the number of
      nodes a search for `k` steps over. */
  function Before(s: seq<Node>, k: string): (r: nat)
    ensures r <= |s|
    ensures forall m :: 0 <= m < r ==> Less(s[m].key, k)
    ensures r < |s| ==> !Less(s[r].key, k)
  {
    if s == [] || !Less(s[0].key, k) then 0 else 1 + Before(s[1..], k)
  }

  lemma {:induction false} LevelZero(s: seq<Node>)
    ensures Level(s, 0) == s
  {
    if s != [] {
      LevelZero(s[1..]);
      assert s == [s[0]] + s[1..];
    }
  }

  /** Each level is a subsequence of the level below it: the nodes of level `l + 1`
      are those of level `l` tall enough for `l + 1`. */
  lemma {:induction false} LevelNested(s: seq<Node>, l: nat)
    ensures Level(Level(s, l), l + 1) == Level(s, l + 1)
  {
    if s != [] {
      LevelNested(s[1..], l);
      if s[0].nodeLevel >= l {
        assert ([s[0]] + Level(s[1..], l))[1..] == Level(s[1..], l);
      }
    }
  }

  lemma {:induction false} LevelAppend(a: seq<Node>, b: seq<Node>, l: nat)
    ensures Level(a + b, l) == Level(a, l) + Level(b, l)
  {
    if a == [] {
      assert a + b == b;
    } else {
      assert (a + b)[0] == a[0] && (a + b)[1..] == a[1..] + b;
      LevelAppend(a[1..], b, l);
    }
  }

  /** A node is on level `l` exactly when it is in the list and tall enough. */
  lemma {:induction false} LevelMembers(s: seq<Node>, l: nat)
    ensures forall i :: 0 <= i < |Level(s, l)| ==> Level(s, l)[i] in s && Level(s, l)[i].nodeLevel >= l
    ensures forall i :: 0 <= i < |s| && s[i].nodeLevel >= l ==> s[i] in Level(s, l)
  {
    if s != [] {
      LevelMembers(s[1..], l);
      assert s == [s[0]] + s[1..];
    }
  }

  /** The `m`-th node of level `l` is a node of the list, tall enough for that level. */
  lemma LevelMember(s: seq<Node>, l: nat, m: nat)
    requires m < |Level(s, l)|
    ensures Level(s, l)[m] in s && Level(s, l)[m].nodeLevel >= l
  {
    LevelMembers(s, l);
  }

  /** Where a node of the list that is tall enough for level `l` sits on that level. */
  lemma LevelIndexOf(s: seq<Node>, l: nat, n: Node) returns (m: nat)
    requires n in s && n.nodeLevel >= l
    ensures m < |Level(s, l)| && Level(s, l)[m] == n
  {
    LevelMembers(s, l);
    var k :| 0 <= k < |s| && s[k] == n;
    assert s[k] in Level(s, l);
    m :| 0 <= m < |Level(s, l)| && Level(s, l)[m] == n;
  }

  /** A search along level `l` of a sorted list that has passed only nodes below `k` and
      stops before a node not below `k` (or at the end) stands at the search position. */
  lemma SearchStop(s: seq<Node>, l: nat, k: string, j: nat)
    requires Sorted(s)
    requires j <= |Level(s, l)|
    requires j > 0 ==> Less(Level(s, l)[j - 1].key, k)
    requires j < |Level(s, l)| ==> !Less(Level(s, l)[j].key, k)
    ensures Before(Level(s, l), k) == j
  {
    LevelSorted(s, l);
    if j > 0 {
      SortedPrefixLess(Level(s, l), k, j);
    }
    BeforeAt(Level(s, l), k, j);
  }

  lemma LevelCons(x: Node, t: seq<Node>, l: nat)
    ensures Level([x] + t, l) == if x.nodeLevel >= l then [x] + Level(t, l) else Level(t, l)
  {
    assert ([x] + t)[0] == x && ([x] + t)[1..] == t;
  }

  /** Every level of a sorted list is sorted. */
  lemma {:induction false} LevelSorted(s: seq<Node>, l: nat)
    requires Sorted(s)
    ensures Sorted(Level(s, l))
  {
    if s != [] {
      LevelSorted(s[1..], l);
      LevelMembers(s[1..], l);
      var t := Level(s[1..], l);
      if s[0].nodeLevel >= l {
        forall j | 0 <= j < |t|
          ensures Less(s[0].key, t[j].key)
        {
          assert t[j] in t;
          var i :| 0 <= i < |s[1..]| && s[1..][i] == t[j];
          assert s[i + 1] == t[j];
        }
      }
    }
  }

  /** The level-`l` list of a sorted level-0 list changes the way level 0 does: a node
      put in at the search position of its key is put in at that same search position on
      every level it reaches, and no other level changes. */
  lemma LevelInsertAt(s: seq<Node>, x: Node, l: nat)
    requires Sorted(s)
    ensures var p := Before(s, x.key);
            var L := Level(s, l);
            var q := Before(L, x.key);
            Level(s[..p] + [x] + s[p..], l) == if x.nodeLevel >= l then L[..q] + [x] + L[q..] else L
  {
    SplitPoint(s, x.key, l);
    LevelInsertSplit(s, Before(s, x.key), x, l);
  }

  /** Removing the node found at the search position of its key from level 0 removes it
      from exactly the levels it reaches, where it also sits at the search position. */
  lemma LevelRemoveAt(s: seq<Node>, k: string, l: nat)
    requires Sorted(s)
    requires Before(s, k) < |s| && s[Before(s, k)].key == k
    ensures var p := Before(s, k);
            var L := Level(s, l);
            var q := Before(L, k);
            && (s[p].nodeLevel >= l ==> q < |L| && L[q] == s[p])
            && Level(s[..p] + s[p + 1..], l) == if s[p].nodeLevel >= l then L[..q] + L[q + 1..] else L
  {
    SplitPoint(s, k, l);
    LevelRemoveSplit(s, Before(s, k), l);
  }

  /** Level `l` after putting `x` in at position `p`, where `q` level-`l` nodes precede it. */
  lemma LevelInsertSplit(s: seq<Node>, p: nat, x: Node, l: nat)
    requires p <= |s|
    ensures var L := Level(s, l);
            var q := |Level(s[..p], l)|;
            q <= |L| &&
            Level(s[..p] + [x] + s[p..], l) == if x.nodeLevel >= l then L[..q] + [x] + L[q..] else L
  {
    var A, B := Level(s[..p], l), Level(s[p..], l);
    assert s == s[..p] + s[p..];
    LevelAppend(s[..p], s[p..], l);
    LevelAppend(s[..p] + [x], s[p..], l);
    LevelAppend(s[..p], [x], l);
    LevelCons(x, [], l);
    assert [x] + [] == [x];
    assert (A + B)[..|A|] == A && (A + B)[|A|..] == B;
  }

  /** Level `l` after taking out the node at position `p`, where `q` level-`l` nodes precede it. */
  lemma LevelRemoveSplit(s: seq<Node>, p: nat, l: nat)
    requires p < |s|
    ensures var L := Level(s, l);
            var q := |Level(s[..p], l)|;
            && (s[p].nodeLevel >= l ==> q < |L| && L[q] == s[p])
            && Level(s[..p] + s[p + 1..], l) == if s[p].nodeLevel >= l then L[..q] + L[q + 1..] else L
  {
    LevelAround(s, p, l);
    var A, B := Level(s[..p], l), Level(s[p + 1..], l);
    assert (A + [s[p]] + B)[..|A|] == A;
    assert (A + [s[p]] + B)[|A| + 1..] == B;
  }

  /** Level `l` of a list, split around its `p`-th node. */
  lemma LevelAround(s: seq<Node>, p: nat, l: nat)
    requires p < |s|
    ensures Level(s, l) == Level(s[..p], l) + (if s[p].nodeLevel >= l then [s[p]] else []) + Level(s[p + 1..], l)
    ensures Level(s[..p] + s[p + 1..], l) == Level(s[..p], l) + Level(s[p + 1..], l)
  {
    assert s == s[..p] + s[p..];
    LevelAppend(s[..p], s[p..], l);
    assert s[p..] == [s[p]] + s[p + 1..];
    LevelCons(s[p], s[p + 1..], l);
    LevelAppend(s[..p], s[p + 1..], l);
  }

  /** Every node a search for `k` steps over is below `k`. */
  lemma PrefixBelow(s: seq<Node>, k: string)
    ensures forall x :: x in s[..Before(s, k)] ==> Less(x.key, k)
  {
    var p := Before(s, k);
    forall x | x in s[..p]
      ensures Less(x.key, k)
    {
      var i :| 0 <= i < p && s[..p][i] == x;
    }
  }

  /** On a sorted list, no node from the search position on is below `k`. */
  lemma SuffixNotBelow(s: seq<Node>, k: string)
    requires Sorted(s)
    ensures forall x :: x in s[Before(s, k)..] ==> !Less(x.key, k)
  {
    var p := Before(s, k);
    forall x | x in s[p..]
      ensures !Less(x.key, k)
    {
      var i :| 0 <= i < |s| - p && s[p..][i] == x;
      if i > 0 && Less(x.key, k) {
        assert Less(s[p].key, s[p + i].key);
        LessTransitive(s[p].key, x.key, k);
        assert false;
      }
    }
  }

  /** On a sorted list, the search position of `k` on level `l` is the number of
      level-`l` nodes among the first `Before(s, k)` nodes of level 0. */
  lemma SplitPoint(s: seq<Node>, k: string, l: nat)
    requires Sorted(s)
    ensures Before(Level(s, l), k) == |Level(s[..Before(s, k)], l)|
  {
    var p := Before(s, k);
    var A, B := Level(s[..p], l), Level(s[p..], l);
    assert s == s[..p] + s[p..];
    LevelAppend(s[..p], s[p..], l);
    PrefixBelow(s, k);
    SuffixNotBelow(s, k);
    LevelMembers(s[..p], l);
    LevelMembers(s[p..], l);
    var L := A + B;
    forall m | 0 <= m < |A|
      ensures Less(L[m].key, k)
    {
      assert A[m] in A;
      assert A[m] in s[..p];
      assert L[m] == A[m];
    }
    if |B| > 0 {
      assert B[0] in B;
      assert B[0] in s[p..];
      assert L[|A|] == B[0];
    }
    BeforeAt(L, k, |A|);
  }

  /** The search for `k` stops right after the last node below `k`, provided no node
      before that is at or above `k`. */
  lemma BeforeAt(s: seq<Node>, k: string, j: nat)
    requires j <= |s|
    requires forall m :: 0 <= m < j ==> Less(s[m].key, k)
    requires j < |s| ==> !Less(s[j].key, k)
    ensures Before(s, k) == j
  {
  }

  /** If the last node passed over is below `k`, so is every node before it. */
  lemma SortedPrefixLess(s: seq<Node>, k: string, j: nat)
    requires Sorted(s)
    requires 0 < j <= |s| && Less(s[j - 1].key, k)
    ensures forall m :: 0 <= m < j ==> Less(s[m].key, k)
  {
    forall m | 0 <= m < j - 1
      ensures Less(s[m].key, k)
    {
      LessTransitive(s[m].key, s[j - 1].key, k);
    }
  }

  /** A key is present in a sorted list exactly when the node at its search position
      carries it. */
  lemma PresentAtSearchPosition(s: seq<Node>, k: string)
    requires Sorted(s)
    ensures k in KeysOf(s) <==> Before(s, k) < |s| && s[Before(s, k)].key == k
  {
    var p := Before(s, k);
    if k in KeysOf(s) {
      var i :| 0 <= i < |s| && KeysOf(s)[i] == k;
      LessIrreflexive(k);
      BeforeAt(s, k, i);
    }
    if p < |s| && s[p].key == k {
      assert KeysOf(s)[p] == k;
    }
  }

  /** Putting a node with an absent key at its search position keeps the list sorted. */
  lemma SortedInsert(s: seq<Node>, x: Node)
    requires Sorted(s) && x.key !in KeysOf(s)
    ensures Sorted(s[..Before(s, x.key)] + [x] + s[Before(s, x.key)..])
  {
    var p := Before(s, x.key);
    var t := s[..p] + [x] + s[p..];
    BelowTheRest(s, x.key);
    forall i, j | 0 <= i < j < |t|
      ensures Less(t[i].key, t[j].key)
    {
      if i == p {
        assert t[i] == x && t[j] == s[j - 1];
      } else if j == p {
        assert t[i] == s[i] && t[j] == x;
      } else {
        var i', j' := if i < p then i else i - 1, if j < p then j else j - 1;
        assert t[i] == s[i'] && t[j] == s[j'];
      }
    }
  }

  /** An absent key is below every key from its search position on. */
  lemma BelowTheRest(s: seq<Node>, k: string)
    requires Sorted(s) && k !in KeysOf(s)
    ensures forall j :: Before(s, k) <= j < |s| ==> Less(k, s[j].key)
  {
    var p := Before(s, k);
    if p < |s| {
      assert KeysOf(s)[p] == s[p].key;
      LessTotal(s[p].key, k);
      forall j | p < j < |s|
        ensures Less(k, s[j].key)
      {
        LessTransitive(k, s[p].key, s[j].key);
      }
    }
  }

  lemma SortedRemove(s: seq<Node>, p: nat)
    requires Sorted(s) && p < |s|
    ensures Sorted(s[..p] + s[p + 1..])
  {
    var t := s[..p] + s[p + 1..];
    forall i, j | 0 <= i < j < |t|
      ensures Less(t[i].key, t[j].key)
    {
      var i', j' := if i < p then i else i + 1, if j < p then j else j + 1;
      assert t[i] == s[i'] && t[j] == s[j'];
    }
  }
}
