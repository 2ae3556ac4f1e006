/** The skip list itself (skiplist.hpp): a head node with one forward pointer per level,
    the current top level, and the element count, updated in place by insertion and
    deletion. */
module SkipLists {
  import opened KeyOrder
  import opened Nodes
  import opened Levels
  import opened KeyValueMap
  import LineCodec

  /** The number of leading `true`s in `coins`: how many times `rand() % 2` came out
      non-zero before the first zero. */
  function LeadingHeads(coins: seq<bool>): (r: nat)
    ensures r <= |coins|
    ensures forall i :: 0 <= i < r ==> coins[i]
    ensures r < |coins| ==> !coins[r]
  {
    if coins == [] || !coins[0] then 0 else 1 + LeadingHeads(coins[1..])
  }

  /** The level `get_random_level` draws: one plus the leading heads, capped at `maxLevel`. */
  function RandomLevel(coins: seq<bool>, maxLevel: nat): (k: nat)
    ensures k <= maxLevel
    ensures maxLevel >= 1 ==> k >= 1
    ensures k < maxLevel ==> k == 1 + LeadingHeads(coins)
    ensures 1 + LeadingHeads(coins) < maxLevel ==> k == 1 + LeadingHeads(coins)
  {
    if 1 + LeadingHeads(coins) < maxLevel then 1 + LeadingHeads(coins) else maxLevel
  }

  class SkipList {
    /** The highest level a node may reach; the head has `maxLevel + 1` forward slots. */
    const maxLevel: nat
    /** The sentinel in front of every level; its key and value are empty strings. */
    const head: Node
    /** The highest level currently in use. */
    var curLevel: nat
    var elementCount: nat

    /** The nodes of level 0, in list order. */
    ghost var Elems: seq<Node>
    /** This object and the forward arrays of the head and of every node ever linked in. */
    ghost var Repr: set<object>

    /** The node a search stands on after stepping over `j` nodes of the level list `L`. */
    function At(L: seq<Node>, j: nat): Node
      requires j <= |L|
    {
      if j == 0 then head else L[j - 1]
    }

    /** The forward pointers of level `l` thread the head and the nodes of `L`, in order,
        and the last of them points to null. */
    ghost predicate Chain(l: nat, L: seq<Node>)
      reads this`Repr, Repr
    {
      forall j :: 0 <= j <= |L| ==>
        At(L, j).forward in Repr && l < At(L, j).forward.Length &&
        At(L, j).forward[l] == (if j < |L| then L[j] else null)
    }

    /** No two of the head and the nodes of `s` share a forward array. */
    ghost predicate Separate(s: seq<Node>)
    {
      && (forall i :: 0 <= i < |s| ==> s[i].forward != head.forward)
      && (forall i, j :: 0 <= i < j < |s| ==> s[i].forward != s[j].forward)
    }

    /** The node after which `key` belongs on level `l`: where the search leaves level `l`. */
    ghost function Pred(l: nat, key: string): Node
      reads this`Elems
    {
      At(Level(Elems, l), Before(Level(Elems, l), key))
    }

    /** The class invariant: `Linked`, and the current level is in use unless it is 0. */
    ghost predicate Valid()
      reads this, Repr
    {
      Linked() && (curLevel == 0 || Level(Elems, curLevel) != [])
    }

    /** The list structure: level 0 holds `Elems` in strictly increasing key order, every
        higher level holds exactly the nodes tall enough for it, and no node is taller than
        the current level. */
    ghost predicate Linked()
      reads this, Repr
    {
      && this in Repr
      && head.forward in Repr
      && head.nodeLevel == maxLevel
      && head.forward.Length == maxLevel + 1
      && curLevel <= maxLevel
      && elementCount == |Elems|
      && Sorted(Elems)
      && Separate(Elems)
      && (forall n :: n in Elems ==> n !in Repr)
      && (forall i :: 0 <= i < |Elems| ==>
            Elems[i].forward in Repr &&
            Elems[i].forward.Length == Elems[i].nodeLevel + 1 && Elems[i].nodeLevel <= curLevel)
      && (forall l :: 0 <= l <= maxLevel ==> Chain(l, Level(Elems, l)))
    }

    /** The key-to-value mapping the list stands for. */
    ghost function Contents(): map<string, string>
      reads this`Elems, Elems
    {
      MapOf(PairsOf(Elems))
    }

    /** An empty list whose nodes may reach level `maxLevel`. */
    constructor (maxLevel: nat)
      ensures Valid() && fresh(Repr)
      ensures this.maxLevel == maxLevel && curLevel == 0 && elementCount == 0
      ensures Elems == [] && Contents() == map[]
    {
      this.maxLevel := maxLevel;
      curLevel := 0;
      elementCount := 0;
      head := new Node("", "", maxLevel);
      Elems := [];
      new;
      Repr := {this, head.forward};
    }

    /** Draws a node level from the coin flips `coins` standing for successive `rand() % 2`. */
    method GetRandomLevel(coins: seq<bool>) returns (k: nat)
      ensures k == RandomLevel(coins, maxLevel)
    {
      k := 1;
      var i := 0;
      while i < |coins| && coins[i]
        invariant i <= LeadingHeads(coins) && k == 1 + i
      {
        k := k + 1;
        i := i + 1;
      }
      k := if k < maxLevel then k else maxLevel;
    }

    /** Two different positions of a list whose forward arrays are apart hold nodes with
        different forward arrays. */
    lemma AtApart(L: seq<Node>, a: nat, b: nat)
      requires Separate(L) && a < b <= |L|
      ensures At(L, a).forward != At(L, b).forward
    {
    }

    /** Every level list of a list whose forward arrays are apart has them apart too. */
    lemma {:induction false} LevelSeparate(s: seq<Node>, l: nat)
      requires Separate(s)
      ensures Separate(Level(s, l))
    {
      if s != [] {
        LevelSeparate(s[1..], l);
        var t := Level(s[1..], l);
        if s[0].nodeLevel >= l {
          forall j | 0 <= j < |t|
            ensures t[j].forward != s[0].forward
          {
            LevelMember(s[1..], l, j);
            var k :| 0 <= k < |s[1..]| && s[1..][k] == t[j];
            assert s[k + 1] == t[j];
          }
          var r := [s[0]] + t;
          forall a, b | 0 <= a < b < |r|
            ensures r[a].forward != r[b].forward
          {
            if a > 0 {
              assert r[a] == t[a - 1] && r[b] == t[b - 1];
            } else {
              assert r[b] == t[b - 1];
            }
          }
        }
      }
    }

    /** One level of the descent shared by insertion, deletion and search: from `current`,
        a node on level `i` below `key`, step along level `i` while the next key is below
        `key`. The walk stops at the node after which `key` belongs on that level. */
    method StepAlong(current: Node, i: nat, key: string) returns (stop: Node)
      requires Sorted(Elems) && Chain(i, Level(Elems, i))
      requires current == head || (current in Elems && current.nodeLevel >= i && Less(current.key, key))
      ensures stop == Pred(i, key)
      ensures stop == head || (stop in Elems && stop.nodeLevel >= i && Less(stop.key, key))
    {
      ghost var L := Level(Elems, i);
      assert Chain(i, L);
      ghost var j: nat := 0;
      if current != head {
        j := LevelIndexOf(Elems, i, current);
        j := j + 1;
      }
      stop := current;
      while stop.forward[i] != null && Less(stop.forward[i].key, key)
        invariant j <= |L| && stop == At(L, j)
        invariant j > 0 ==> Less(L[j - 1].key, key)
        decreases |L| - j
      {
        stop := stop.forward[i];
        j := j + 1;
      }
      SearchStop(Elems, i, key, j);
      if j > 0 {
        LevelMember(Elems, i, j - 1);
      }
    }

    /** The search phase of insertion and deletion: for every level in use, the node after
        which `key` belongs on that level. */
    method FindUpdate(key: string) returns (update: array<Node?>)
      requires curLevel <= maxLevel && Sorted(Elems)
      requires forall l :: 0 <= l <= curLevel ==> Chain(l, Level(Elems, l))
      ensures fresh(update) && update.Length == maxLevel + 1
      ensures forall l :: 0 <= l <= curLevel ==> update[l] == Pred(l, key)
    {
      update := new Node?[maxLevel + 1](_ => null);
      var current := head;
      var i: int := curLevel;
      assert update !in Repr;
      while i >= 0
        invariant update !in Repr
        invariant forall l :: 0 <= l <= i ==> Chain(l, Level(Elems, l))
        invariant -1 <= i <= curLevel
        invariant current == head || (current in Elems && current.nodeLevel > i && Less(current.key, key))
        invariant forall l :: i < l <= curLevel ==> update[l] == Pred(l, key)
        modifies update
      {
        current := FindStep(update, current, i, key);
        i := i - 1;
      }
    }

    /** One round of the search loop of insertion and deletion: step along level `i` and
        record where the walk stopped in `update[i]`. */
    method FindStep(update: array<Node?>, current: Node, i: nat, key: string) returns (stop: Node)
      requires update !in Repr && i < update.Length
      requires Sorted(Elems) && Chain(i, Level(Elems, i))
      requires current == head || (current in Elems && current.nodeLevel >= i && Less(current.key, key))
      modifies update
      ensures stop == Pred(i, key) && update[i] == stop
      ensures stop == head || (stop in Elems && stop.nodeLevel >= i && Less(stop.key, key))
      ensures forall l :: 0 <= l < update.Length && l != i ==> update[l] == old(update[l])
    {
      stop := StepAlong(current, i, key);
      update[i] := stop;
    }

    /** `search_element`: whether `key` is stored, and so whether the mapping has it. */
    method Search(key: string) returns (found: bool)
      requires Valid()
      ensures found <==> key in KeysOf(Elems)
      ensures found <==> key in Contents()
    {
      var current := Descend(key);
      FoundAfterPred(key);
      ContentsKeys(key);
      current := current.forward[0];
      found := current != null && current.key == key;
    }

    /** The descent of `search_element` (lines 292-299): from the top level in use down to
        level 0, step along each level while the next key is below `key`. It ends on the
        node after which `key` belongs on level 0. */
    method Descend(key: string) returns (current: Node)
      requires curLevel <= maxLevel && Sorted(Elems)
      requires forall l :: 0 <= l <= curLevel ==> Chain(l, Level(Elems, l))
      ensures current == Pred(0, key)
    {
      current := head;
      var i: int := curLevel;
      while i >= 0
        invariant -1 <= i <= curLevel
        invariant current == head || (current in Elems && current.nodeLevel > i && Less(current.key, key))
        invariant i < 0 ==> current == Pred(0, key)
      {
        current := StepAlong(current, i, key);
        i := i - 1;
      }
    }

    /** What the search of `key` finds on level 0: the node after `Pred(0, key)` carries
        `key` exactly when `key` is stored, and then it is the node at the search position. */
    lemma FoundAfterPred(key: string)
      requires Linked()
      ensures 0 < Pred(0, key).forward.Length
      ensures var n := Pred(0, key).forward[0];
              && ((n != null && n.key == key) <==> key in KeysOf(Elems))
              && (n != null ==> Before(Elems, key) < |Elems| && n == Elems[Before(Elems, key)])
    {
      LevelZero(Elems);
      PresentAtSearchPosition(Elems, key);
      assert Chain(0, Level(Elems, 0));
    }

    /** The mapping holds exactly the keys of the nodes. */
    lemma ContentsKeys(key: string)
      ensures key in Contents() <==> key in KeysOf(Elems)
    {
      var ps := PairsOf(Elems);
      if key in KeysOf(Elems) {
        var i :| 0 <= i < |Elems| && KeysOf(Elems)[i] == key;
        assert ps[i].0 == key;
      }
      if key in Contents() {
        var i :| 0 <= i < |ps| && ps[i].0 == key;
        assert KeysOf(Elems)[i] == key;
      }
    }

    /** Lines 123-128 of `insert_element`: a drawn level above the current one makes the head
        the predecessor on every new level, and becomes the current level. */
    method RaiseLevel(update: array<Node?>, rl: nat, ghost key: string)
      requires Linked() && update !in Repr && update.Length == maxLevel + 1 && rl <= maxLevel
      requires forall l :: 0 <= l <= curLevel ==> update[l] == Pred(l, key)
      modifies this, update
      ensures Linked() && Elems == old(Elems) && Repr == old(Repr) && elementCount == old(elementCount)
      ensures Contents() == old(Contents())
      ensures curLevel == if old(curLevel) < rl then rl else old(curLevel)
      ensures forall l :: 0 <= l <= rl ==> update[l] == Pred(l, key)
    {
      if rl > curLevel {
        var i := curLevel + 1;
        while i < rl + 1
          invariant curLevel + 1 <= i <= rl + 1
          invariant forall l :: 0 <= l <= curLevel ==> update[l] == Pred(l, key)
          invariant forall l :: curLevel < l < i ==> update[l] == head
          modifies update
        {
          update[i] := head;
          i := i + 1;
        }
        forall l | curLevel < l <= rl
          ensures Pred(l, key) == head
        {
          LevelAboveEmpty(Elems, l);
        }
        curLevel := rl;
      }
      PairsKept(Elems);
    }

    /** One round of the splice loop of `insert_element` (lines 135-136): on a level `i`
        threading `L`, `nn` goes in right after `u`, the node standing after `q` nodes of
        `L`. Level `i` then threads `L` with `nn` put in at position `q`, and no other slot
        changes. */
    method LinkLevel(u: Node, nn: Node, i: nat, ghost L: seq<Node>, ghost q: nat)
      requires q <= |L| && u == At(L, q)
      requires Separate(L[..q] + [nn] + L[q..])
      requires Chain(i, L) && nn.forward in Repr && i < nn.forward.Length
      modifies u.forward, nn.forward
      ensures Chain(i, L[..q] + [nn] + L[q..])
      ensures forall l :: 0 <= l < u.forward.Length && l != i ==> u.forward[l] == old(u.forward[l])
      ensures forall l :: 0 <= l < nn.forward.Length && l != i ==> nn.forward[l] == old(nn.forward[l])
    {
      ghost var NL := L[..q] + [nn] + L[q..];
      assert At(NL, q) == u && At(NL, q + 1) == nn;
      AtApart(NL, q, q + 1);
      ghost var next := u.forward[i];
      assert next == if q < |L| then L[q] else null;
      nn.forward[i] := u.forward[i];
      u.forward[i] := nn;
      forall j | 0 <= j <= |NL|
        ensures At(NL, j).forward in Repr && i < At(NL, j).forward.Length
        ensures At(NL, j).forward[i] == (if j < |NL| then NL[j] else null)
      {
        if j < q {
          assert At(NL, j) == At(L, j);
          AtApart(NL, j, q);
          AtApart(NL, j, q + 1);
        } else if j == q {
          assert NL[q] == nn;
        } else if j == q + 1 {
          assert nn.forward[i] == next;
          if j < |NL| {
            assert NL[j] == L[q];
          }
        } else {
          assert At(NL, j) == At(L, j - 1);
          AtApart(NL, q, j);
          AtApart(NL, q + 1, j);
        }
      }
    }

    /** The splice loop of `insert_element` (lines 134-137). Level `l` threads `Ls[l]`, and
        `update[l]` stands after `qs[l]` of its nodes; `Ns[l]` is `Ls[l]` with `nn` put in at
        position `qs[l]` on every level `nn` reaches, and `Ls[l]` above. Linking `nn` in
        after `update[l]` on every level it reaches makes every level thread `Ns[l]`. */
    method Splice(update: array<Node?>, nn: Node, ghost Ls: seq<seq<Node>>, ghost qs: seq<nat>, ghost Ns: seq<seq<Node>>)
      requires update !in Repr && update != nn.forward && update.Length > nn.nodeLevel
      requires nn.forward in Repr && nn.forward.Length == nn.nodeLevel + 1
      requires nn.nodeLevel < |Ls| == |qs| == |Ns|
      requires forall l :: 0 <= l < nn.forward.Length ==> nn.forward[l] == null
      requires forall l :: 0 <= l < |Ls| ==> Chain(l, Ls[l])
      requires forall l :: 0 <= l <= nn.nodeLevel ==>
                 && qs[l] <= |Ls[l]| && update[l] == At(Ls[l], qs[l])
                 && Ns[l] == Ls[l][..qs[l]] + [nn] + Ls[l][qs[l]..] && Separate(Ns[l])
      requires forall l :: nn.nodeLevel < l < |Ls| ==> Ns[l] == Ls[l]
      modifies Repr - {this}
      ensures forall l :: 0 <= l < |Ns| ==> Chain(l, Ns[l])
    {
      var i := 0;
      while i <= nn.nodeLevel
        invariant 0 <= i <= nn.nodeLevel + 1
        invariant forall l :: 0 <= l < i ==> Chain(l, Ns[l])
        invariant forall l :: i <= l < |Ls| ==> Chain(l, Ls[l])
        invariant forall l :: i <= l <= nn.nodeLevel ==> nn.forward[l] == null
      {
        SpliceStep(update, nn, i, Ls, qs, Ns);
        i := i + 1;
      }
    }

    /** One round of `Splice` on level `i`, with what it leaves unchanged on the other
        levels. */
    method SpliceStep(update: array<Node?>, nn: Node, i: nat, ghost Ls: seq<seq<Node>>, ghost qs: seq<nat>, ghost Ns: seq<seq<Node>>)
      requires update !in Repr && update != nn.forward && update.Length > nn.nodeLevel
      requires nn.forward in Repr && nn.forward.Length == nn.nodeLevel + 1
      requires i <= nn.nodeLevel < |Ls| == |qs| == |Ns|
      requires forall l :: i <= l <= nn.nodeLevel ==> nn.forward[l] == null
      requires qs[i] <= |Ls[i]| && update[i] == At(Ls[i], qs[i])
      requires Ns[i] == Ls[i][..qs[i]] + [nn] + Ls[i][qs[i]..] && Separate(Ns[i])
      requires forall l :: 0 <= l < i ==> Chain(l, Ns[l])
      requires forall l :: i <= l < |Ls| ==> Chain(l, Ls[l])
      modifies update[i].forward, nn.forward
      ensures forall l :: 0 <= l <= i ==> Chain(l, Ns[l])
      ensures forall l :: i < l < |Ls| ==> Chain(l, Ls[l])
      ensures forall l :: i < l <= nn.nodeLevel ==> nn.forward[l] == null
    {
      LinkLevel(update[i], nn, i, Ls[i], qs[i]);
    }

    /** Lines 130-139 of `insert_element`: the fresh node `nn` is linked in after
        `update[i]` on every level `i` it reaches, which puts it at the search position of
        its key in level 0 and in every level list it belongs to, and the count goes up. */
    method Link(update: array<Node?>, nn: Node)
      requires Linked() && update !in Repr && update.Length == maxLevel + 1
      requires nn.key !in KeysOf(Elems) && nn.nodeLevel <= curLevel
      requires nn !in Repr && nn.forward !in Repr && nn.forward != update
      requires nn.forward.Length == nn.nodeLevel + 1
      requires forall l :: 0 <= l < nn.forward.Length ==> nn.forward[l] == null
      requires forall l :: 0 <= l <= nn.nodeLevel ==> update[l] == Pred(l, nn.key)
      modifies this, Repr, nn.forward
      ensures Linked()
      ensures Elems == old(Elems)[..Before(old(Elems), nn.key)] + [nn] + old(Elems)[Before(old(Elems), nn.key)..]
      ensures Repr == old(Repr) + {nn.forward}
      ensures curLevel == old(curLevel) && elementCount == old(elementCount) + 1
    {
      ghost var OldE := Elems;
      ghost var p := Before(OldE, nn.key);
      Adopt(nn.forward);
      ghost var Ls, qs, Ns := InsertPlan(update, nn);
      Elems := OldE[..p] + [nn] + OldE[p..];
      elementCount := elementCount + 1;
      Splice(update, nn, Ls, qs, Ns);
    }

    /** The forward array `a`, which no node uses yet, joins the footprint. */
    method Adopt(a: array<Node?>)
      requires Linked() && a !in Repr
      modifies this
      ensures Linked() && Repr == old(Repr) + {a}
      ensures Elems == old(Elems) && curLevel == old(curLevel) && elementCount == old(elementCount)
    {
      Repr := Repr + {a};
    }

    /** The level lists and search positions `Splice` works from when `nn` is put in at the
        search position of its absent key, and what each level list becomes. */
    lemma InsertPlan(update: array<Node?>, nn: Node) returns (Ls: seq<seq<Node>>, qs: seq<nat>, Ns: seq<seq<Node>>)
      requires Linked() && update.Length == maxLevel + 1
      requires nn.key !in KeysOf(Elems) && nn.nodeLevel <= curLevel
      requires nn !in Repr && nn.forward in Repr && nn.forward.Length == nn.nodeLevel + 1
      requires nn.forward != head.forward && forall k :: 0 <= k < |Elems| ==> Elems[k].forward != nn.forward
      requires forall l :: 0 <= l <= nn.nodeLevel ==> update[l] == Pred(l, nn.key)
      ensures |Ls| == |qs| == |Ns| == maxLevel + 1
      ensures forall l :: 0 <= l < |Ls| ==> Chain(l, Ls[l])
      ensures forall l :: 0 <= l <= nn.nodeLevel ==>
                && qs[l] <= |Ls[l]| && update[l] == At(Ls[l], qs[l])
                && Ns[l] == Ls[l][..qs[l]] + [nn] + Ls[l][qs[l]..] && Separate(Ns[l])
      ensures forall l :: nn.nodeLevel < l < |Ls| ==> Ns[l] == Ls[l]
      ensures var p := Before(Elems, nn.key);
              var NE := Elems[..p] + [nn] + Elems[p..];
              && Sorted(NE) && Separate(NE)
              && (forall n :: n in NE ==> n !in Repr)
              && (forall i :: 0 <= i < |NE| ==>
                    NE[i].forward in Repr && NE[i].forward.Length == NE[i].nodeLevel + 1 && NE[i].nodeLevel <= curLevel)
              && (forall l :: 0 <= l <= maxLevel ==> Level(NE, l) == Ns[l])
    {
      var E := Elems;
      var p := Before(E, nn.key);
      var NE := E[..p] + [nn] + E[p..];
      InsertShape(E, nn);
      NodesFit(E, p, nn, Repr, curLevel);
      Ls := seq(maxLevel + 1, (l: int) requires 0 <= l => Level(E, l));
      qs := seq(maxLevel + 1, (l: int) requires 0 <= l => Before(Level(E, l), nn.key));
      Ns := seq(maxLevel + 1, (l: int) requires 0 <= l => Level(NE, l));
      forall l | 0 <= l <= maxLevel
        ensures Ls[l] == Level(E, l) && qs[l] == Before(Level(E, l), nn.key) && Ns[l] == Level(NE, l)
      {
      }
    }

    /** Putting `nn` in at the search position of its key keeps the list sorted and the
        forward arrays apart, and changes each level list the way `Splice` expects. */
    lemma InsertShape(E: seq<Node>, nn: Node)
      requires Sorted(E) && Separate(E) && nn.key !in KeysOf(E)
      requires nn.forward != head.forward
      requires forall k :: 0 <= k < |E| ==> E[k].forward != nn.forward
      ensures var NE := E[..Before(E, nn.key)] + [nn] + E[Before(E, nn.key)..];
              && Sorted(NE) && Separate(NE)
              && (forall l :: 0 <= l <= nn.nodeLevel ==>
                    && Level(NE, l) == Level(E, l)[..Before(Level(E, l), nn.key)] + [nn] + Level(E, l)[Before(Level(E, l), nn.key)..]
                    && Separate(Level(NE, l)))
              && (forall l :: nn.nodeLevel < l ==> Level(NE, l) == Level(E, l))
    {
      var p := Before(E, nn.key);
      var NE := E[..p] + [nn] + E[p..];
      SortedInsert(E, nn);
      InsertSeparate(E, p, nn);
      forall l | 0 <= l
        ensures Level(NE, l) == if nn.nodeLevel >= l
                                then Level(E, l)[..Before(Level(E, l), nn.key)] + [nn] + Level(E, l)[Before(Level(E, l), nn.key)..]
                                else Level(E, l)
        ensures Separate(Level(NE, l))
      {
        LevelInsertAt(E, nn, l);
        LevelSeparate(NE, l);
      }
    }

    /** Putting in a node whose forward array belongs to no node of `s` nor to the head
        keeps the forward arrays apart. */
    lemma InsertSeparate(s: seq<Node>, p: nat, x: Node)
      requires Separate(s) && p <= |s|
      requires x.forward != head.forward
      requires forall k :: 0 <= k < |s| ==> s[k].forward != x.forward
      ensures Separate(s[..p] + [x] + s[p..])
    {
      var t := s[..p] + [x] + s[p..];
      forall a, b | 0 <= a < b < |t|
        ensures t[a].forward != t[b].forward
      {
        if b < p {
          assert t[a] == s[a] && t[b] == s[b];
        } else if a > p {
          assert t[a] == s[a - 1] && t[b] == s[b - 1];
        } else if a < p && b > p {
          assert t[a] == s[a] && t[b] == s[b - 1];
        } else if a == p {
          assert t[b] == s[b - 1];
        } else {
          assert t[a] == s[a];
        }
      }
      forall k | 0 <= k < |t|
        ensures t[k].forward != head.forward
      {
        if k < p {
          assert t[k] == s[k];
        } else if k > p {
          assert t[k] == s[k - 1];
        }
      }
    }

    /** Taking out the node carrying `k` from a sorted list keeps it sorted and the
        forward arrays apart, takes `k` out of the keys, and changes each level list the
        way `Unlink` expects. */
    lemma RemoveShape(E: seq<Node>, k: string)
      requires Sorted(E) && Separate(E)
      requires Before(E, k) < |E| && E[Before(E, k)].key == k
      ensures var p := Before(E, k);
              var x := E[p];
              var NE := E[..p] + E[p + 1..];
              && Sorted(NE) && Separate(NE) && k !in KeysOf(NE)
              && (forall l :: 0 <= l <= x.nodeLevel ==>
                    && Before(Level(E, l), k) < |Level(E, l)| && Level(E, l)[Before(Level(E, l), k)] == x
                    && Level(NE, l) == Level(E, l)[..Before(Level(E, l), k)] + Level(E, l)[Before(Level(E, l), k) + 1..]
                    && Separate(Level(E, l)))
              && (forall l :: x.nodeLevel < l ==> Level(NE, l) == Level(E, l) && x !in Level(E, l))
    {
      var p := Before(E, k);
      var NE := E[..p] + E[p + 1..];
      SortedRemove(E, p);
      RemoveSeparate(E, p);
      forall i | 0 <= i < |NE|
        ensures NE[i].key != k
      {
        if i < p {
          assert NE[i] == E[i] && Less(E[i].key, E[p].key);
        } else {
          assert NE[i] == E[i + 1] && Less(E[p].key, E[i + 1].key);
          LessIrreflexive(k);
        }
      }
      forall l | 0 <= l
        ensures E[p].nodeLevel >= l ==>
                  && Before(Level(E, l), k) < |Level(E, l)| && Level(E, l)[Before(Level(E, l), k)] == E[p]
                  && Level(NE, l) == Level(E, l)[..Before(Level(E, l), k)] + Level(E, l)[Before(Level(E, l), k) + 1..]
        ensures E[p].nodeLevel < l ==> Level(NE, l) == Level(E, l) && E[p] !in Level(E, l)
        ensures Separate(Level(E, l))
      {
        LevelRemoveAt(E, k, l);
        LevelMembers(E, l);
        LevelSeparate(E, l);
      }
    }

    /** Taking a node out keeps the forward arrays apart. */
    lemma RemoveSeparate(s: seq<Node>, p: nat)
      requires Separate(s) && p < |s|
      ensures Separate(s[..p] + s[p + 1..])
    {
      var t := s[..p] + s[p + 1..];
      forall a, b | 0 <= a < b < |t|
        ensures t[a].forward != t[b].forward
      {
        var a', b' := if a < p then a else a + 1, if b < p then b else b + 1;
        assert t[a] == s[a'] && t[b] == s[b'];
      }
      forall k | 0 <= k < |t|
        ensures t[k].forward != head.forward
      {
        assert t[k] == s[if k < p then k else k + 1];
      }
    }

    /** `insert_element` with the coin flips `coins` for the new node's level: an absent
        key is linked in at its place on every level up to the drawn level and the result
        is 0; a present key leaves the list as it was and the result is 1. */
    method Insert(key: string, value: string, coins: seq<bool>) returns (r: int)
      requires Valid()
      modifies Repr
      ensures Valid() && fresh(Repr - old(Repr))
      ensures r == 1 <==> key in old(KeysOf(Elems))
      ensures r == 0 || r == 1
      ensures r == 1 ==> Elems == old(Elems) && curLevel == old(curLevel) && elementCount == old(elementCount)
      ensures r == 1 ==> Repr == old(Repr) && unchanged(Repr)
      ensures r == 0 ==>
                var p := Before(old(Elems), key);
                && |Elems| == |old(Elems)| + 1
                && Elems == old(Elems)[..p] + [Elems[p]] + old(Elems)[p..]
                && fresh(Elems[p]) && Elems[p].key == key && Elems[p].value == value
                && Elems[p].nodeLevel == RandomLevel(coins, maxLevel)
                && curLevel == (if old(curLevel) < Elems[p].nodeLevel then Elems[p].nodeLevel else old(curLevel))
                && elementCount == old(elementCount) + 1
      ensures key in KeysOf(Elems)
      ensures Contents() == InsertIfAbsent(old(Contents()), key, value)
    {
      ghost var m0 := Contents();
      ContentsKeys(key);
      var update := FindUpdate(key);
      Unmoved();
      FoundAfterPred(key);
      var current := update[0].forward[0];
      if current != null && current.key == key {
        return 1;
      }
      AddNode(update, key, value, coins);
      r := 0;
    }

    /** Lines 117-139 of `insert_element`, for a key that is absent: draw a level, raise
        the current level to it if need be, and link a fresh node in at the key's place. */
    method AddNode(update: array<Node?>, key: string, value: string, coins: seq<bool>)
      requires Valid() && key !in KeysOf(Elems)
      requires update !in Repr && update.Length == maxLevel + 1
      requires forall l :: 0 <= l <= curLevel ==> update[l] == Pred(l, key)
      modifies Repr, update
      ensures Valid() && fresh(Repr - old(Repr))
      ensures var p := Before(old(Elems), key);
              && |Elems| == |old(Elems)| + 1
              && Elems == old(Elems)[..p] + [Elems[p]] + old(Elems)[p..]
              && fresh(Elems[p]) && Elems[p].key == key && Elems[p].value == value
              && Elems[p].nodeLevel == RandomLevel(coins, maxLevel)
              && curLevel == (if old(curLevel) < Elems[p].nodeLevel then Elems[p].nodeLevel else old(curLevel))
              && elementCount == old(elementCount) + 1
      ensures key in KeysOf(Elems)
      ensures Contents() == old(Contents())[key := value]
    {
      ghost var p := Before(Elems, key);
      var rl := GetRandomLevel(coins);
      var nn := Grow(update, key, value, rl);
      assert Elems[p] == nn;
    }

    /** Lines 123-139 of `insert_element` for an absent key and the drawn level `rl`:
        raise the current level to `rl` if need be, then make a fresh node and link it in. */
    method Grow(update: array<Node?>, key: string, value: string, rl: nat) returns (nn: Node)
      requires Valid() && key !in KeysOf(Elems) && rl <= maxLevel
      requires update !in Repr && update.Length == maxLevel + 1
      requires forall l :: 0 <= l <= curLevel ==> update[l] == Pred(l, key)
      modifies Repr, update
      ensures Valid() && fresh(nn) && fresh(nn.forward) && Repr == old(Repr) + {nn.forward}
      ensures nn.key == key && nn.value == value && nn.nodeLevel == rl
      ensures Elems == old(Elems)[..Before(old(Elems), key)] + [nn] + old(Elems)[Before(old(Elems), key)..]
      ensures curLevel == (if old(curLevel) < rl then rl else old(curLevel))
      ensures elementCount == old(elementCount) + 1
      ensures key in KeysOf(Elems)
      ensures Contents() == old(Contents())[key := value]
    {
      ghost var oldCur := curLevel;
      RaiseLevel(update, rl, key);
      nn := LinkNew(update, key, value, rl, oldCur);
    }

    /** Lines 131-139 of `insert_element`, once the current level has been raised from
        `top` to cover the drawn level `rl`: a fresh node is made and linked in, which adds
        its entry to the mapping and keeps the list valid. */
    method LinkNew(update: array<Node?>, key: string, value: string, rl: nat, ghost top: nat) returns (nn: Node)
      requires Linked() && key !in KeysOf(Elems)
      requires update !in Repr && update.Length == maxLevel + 1
      requires top == 0 || Level(Elems, top) != []
      requires curLevel == if top < rl then rl else top
      requires forall l :: 0 <= l <= rl ==> update[l] == Pred(l, key)
      modifies this, Repr
      ensures Valid() && fresh(nn) && fresh(nn.forward) && Repr == old(Repr) + {nn.forward}
      ensures nn.key == key && nn.value == value && nn.nodeLevel == rl
      ensures Elems == old(Elems)[..Before(old(Elems), key)] + [nn] + old(Elems)[Before(old(Elems), key)..]
      ensures curLevel == old(curLevel) && elementCount == old(elementCount) + 1
      ensures key in KeysOf(Elems)
      ensures Contents() == old(Contents())[key := value]
    {
      ghost var OldE := Elems;
      ghost var p := Before(OldE, key);
      nn := new Node(key, value, rl);
      Link(update, nn);
      TopStaysInUse(OldE, nn, top);
      InsertedContents(nn);
    }

    /** The mapping after `x` has been put in at the search position of its absent key,
        no old node having changed: exactly the entry of `x` has been added. */
    twostate lemma InsertedContents(new x: Node)
      requires x.key !in old(KeysOf(Elems))
      requires Elems == old(Elems)[..Before(old(Elems), x.key)] + [x] + old(Elems)[Before(old(Elems), x.key)..]
      requires forall n :: n in old(Elems) ==> unchanged(n)
      ensures x.key in KeysOf(Elems)
      ensures Contents() == old(Contents())[x.key := x.value]
    {
      var p := Before(old(Elems), x.key);
      assert KeysOf(Elems)[p] == x.key;
      PairsInsert(old(Elems), p, x);
      PairsKept(old(Elems));
    }

    /** One round of the unlink loop of `delete_element` (line 252): on a level `i`
        threading `L`, the node `x` standing after `q` nodes of `L` is bypassed, its
        predecessor `u` taking over its successor. Level `i` then threads `L` without `x`,
        and no other slot changes. */
    method UnlinkLevel(u: Node, x: Node, i: nat, ghost L: seq<Node>, ghost q: nat)
      requires q < |L| && L[q] == x && u == At(L, q)
      requires Separate(L) && Chain(i, L)
      modifies u.forward
      ensures Chain(i, L[..q] + L[q + 1..])
      ensures forall l :: 0 <= l < u.forward.Length && l != i ==> u.forward[l] == old(u.forward[l])
    {
      ghost var NL := L[..q] + L[q + 1..];
      assert At(L, q + 1) == x;
      AtApart(L, q, q + 1);
      u.forward[i] := x.forward[i];
      forall j | 0 <= j <= |NL|
        ensures At(NL, j).forward in Repr && i < At(NL, j).forward.Length
        ensures At(NL, j).forward[i] == (if j < |NL| then NL[j] else null)
      {
        if j < q {
          assert At(NL, j) == At(L, j);
          AtApart(L, j, q);
        } else if j > q {
          assert At(NL, j) == At(L, j + 1);
          AtApart(L, q, j + 1);
        }
      }
    }

    /** The unlink loop of `delete_element` (lines 245-253). Level `l` threads `Ls[l]`,
        and `update[l]` stands after `qs[l]` of its nodes, which is where `x` is on every
        level `x` reaches; `Ns[l]` is `Ls[l]` without `x`. Walking up from level 0, `x` is
        bypassed on each level until the first level whose `update` does not point to it:
        every level then threads `Ns[l]`. */
    method Unlink(update: array<Node?>, x: Node, ghost Ls: seq<seq<Node>>, ghost qs: seq<nat>, ghost Ns: seq<seq<Node>>)
      requires update !in Repr && update.Length == |Ls| == |qs| == |Ns|
      requires x.nodeLevel <= curLevel < |Ls|
      requires forall l :: 0 <= l < |Ls| ==> Chain(l, Ls[l])
      requires forall l :: 0 <= l <= curLevel ==> qs[l] <= |Ls[l]| && update[l] == At(Ls[l], qs[l])
      requires forall l :: 0 <= l <= x.nodeLevel ==>
                 qs[l] < |Ls[l]| && Ls[l][qs[l]] == x && Separate(Ls[l]) && Ns[l] == Ls[l][..qs[l]] + Ls[l][qs[l] + 1..]
      requires forall l :: x.nodeLevel < l < |Ls| ==> Ns[l] == Ls[l]
      requires forall l :: x.nodeLevel < l <= curLevel ==> x !in Ls[l]
      modifies Repr - {this}
      ensures forall l :: 0 <= l < |Ns| ==> Chain(l, Ns[l])
    {
      var i := 0;
      while i <= curLevel
        invariant 0 <= i <= x.nodeLevel + 1
        invariant forall l :: 0 <= l < i ==> Chain(l, Ns[l])
        invariant forall l :: i <= l < |Ls| ==> Chain(l, Ls[l])
      {
        assert Chain(i, Ls[i]);
        if update[i].forward[i] != x {
          assert i == x.nodeLevel + 1;
          break;
        }
        UnlinkStep(update, x, i, Ls, qs, Ns);
        i := i + 1;
      }
    }

    /** One round of `Unlink` on level `i`, with what it leaves unchanged on the other
        levels. */
    method UnlinkStep(update: array<Node?>, x: Node, i: nat, ghost Ls: seq<seq<Node>>, ghost qs: seq<nat>, ghost Ns: seq<seq<Node>>)
      requires update !in Repr && update.Length == |Ls| == |qs| == |Ns|
      requires i <= x.nodeLevel < |Ls|
      requires qs[i] < |Ls[i]| && Ls[i][qs[i]] == x && Separate(Ls[i]) && Ns[i] == Ls[i][..qs[i]] + Ls[i][qs[i] + 1..]
      requires update[i] == At(Ls[i], qs[i])
      requires forall l :: 0 <= l < i ==> Chain(l, Ns[l])
      requires forall l :: i <= l < |Ls| ==> Chain(l, Ls[l])
      modifies update[i].forward
      ensures forall l :: 0 <= l <= i ==> Chain(l, Ns[l])
      ensures forall l :: i < l < |Ls| ==> Chain(l, Ls[l])
    {
      UnlinkLevel(update[i], x, i, Ls[i], qs[i]);
    }

    /** Lines 241-261 of `delete_element` short of the level shrink: the node `x` found at
        the search position of its key is unlinked from every level it reaches, which takes
        it out of level 0 and of every level list, and the count goes down. */
    method Remove(update: array<Node?>, x: Node)
      requires Linked() && update !in Repr && update.Length == maxLevel + 1
      requires Before(Elems, x.key) < |Elems| && Elems[Before(Elems, x.key)] == x
      requires forall l :: 0 <= l <= curLevel ==> update[l] == Pred(l, x.key)
      modifies this, Repr
      ensures Linked()
      ensures Elems == old(Elems)[..Before(old(Elems), x.key)] + old(Elems)[Before(old(Elems), x.key) + 1..]
      ensures x.key !in KeysOf(Elems)
      ensures Repr == old(Repr) && curLevel == old(curLevel) && elementCount == old(elementCount) - 1
    {
      ghost var OldE := Elems;
      ghost var p := Before(OldE, x.key);
      ghost var NewE := OldE[..p] + OldE[p + 1..];
      ghost var Ls, qs, Ns := RemovePlan(update, x);
      Elems := NewE;
      elementCount := elementCount - 1;
      Unlink(update, x, Ls, qs, Ns);
    }

    /** The level lists and search positions `Unlink` works from when `x`, found at the
        search position of its key, is taken out, and what each level list becomes. */
    lemma RemovePlan(update: array<Node?>, x: Node) returns (Ls: seq<seq<Node>>, qs: seq<nat>, Ns: seq<seq<Node>>)
      requires Linked() && update.Length == maxLevel + 1
      requires Before(Elems, x.key) < |Elems| && Elems[Before(Elems, x.key)] == x
      requires forall l :: 0 <= l <= curLevel ==> update[l] == Pred(l, x.key)
      ensures |Ls| == |qs| == |Ns| == maxLevel + 1 && x.nodeLevel <= curLevel
      ensures forall l :: 0 <= l < |Ls| ==> Chain(l, Ls[l])
      ensures forall l :: 0 <= l <= curLevel ==> qs[l] <= |Ls[l]| && update[l] == At(Ls[l], qs[l])
      ensures forall l :: 0 <= l <= x.nodeLevel ==>
                qs[l] < |Ls[l]| && Ls[l][qs[l]] == x && Separate(Ls[l]) && Ns[l] == Ls[l][..qs[l]] + Ls[l][qs[l] + 1..]
      ensures forall l :: x.nodeLevel < l < |Ls| ==> Ns[l] == Ls[l]
      ensures forall l :: x.nodeLevel < l <= curLevel ==> x !in Ls[l]
      ensures var p := Before(Elems, x.key);
              var NE := Elems[..p] + Elems[p + 1..];
              && Sorted(NE) && Separate(NE) && x.key !in KeysOf(NE)
              && (forall n :: n in NE ==> n !in Repr)
              && (forall i :: 0 <= i < |NE| ==>
                    NE[i].forward in Repr && NE[i].forward.Length == NE[i].nodeLevel + 1 && NE[i].nodeLevel <= curLevel)
              && (forall l :: 0 <= l <= maxLevel ==> Level(NE, l) == Ns[l])
    {
      var E := Elems;
      var p := Before(E, x.key);
      assert E[p] in E;
      Ls, qs, Ns := RemoveLevels(E, x.key, maxLevel + 1);
      NodesKept(E, p, Repr, curLevel);
    }

    /** `RemoveShape` for the first `n` levels, with the level lists before and after and
        the search positions gathered into sequences. */
    lemma RemoveLevels(E: seq<Node>, k: string, n: nat) returns (Ls: seq<seq<Node>>, qs: seq<nat>, Ns: seq<seq<Node>>)
      requires Sorted(E) && Separate(E)
      requires Before(E, k) < |E| && E[Before(E, k)].key == k
      ensures var p := Before(E, k);
              var x := E[p];
              var NE := E[..p] + E[p + 1..];
              && Sorted(NE) && Separate(NE) && k !in KeysOf(NE)
              && |Ls| == |qs| == |Ns| == n
              && (forall l :: 0 <= l < n ==> Ls[l] == Level(E, l) && qs[l] == Before(Level(E, l), k) && Ns[l] == Level(NE, l))
              && (forall l :: 0 <= l < n && l <= x.nodeLevel ==>
                    qs[l] < |Ls[l]| && Ls[l][qs[l]] == x && Separate(Ls[l]) && Ns[l] == Ls[l][..qs[l]] + Ls[l][qs[l] + 1..])
              && (forall l :: x.nodeLevel < l < n ==> Ns[l] == Ls[l] && x !in Ls[l])
    {
      var p := Before(E, k);
      var NE := E[..p] + E[p + 1..];
      RemoveShape(E, k);
      Ls := seq(n, (l: int) requires 0 <= l => Level(E, l));
      qs := seq(n, (l: int) requires 0 <= l => Before(Level(E, l), k));
      Ns := seq(n, (l: int) requires 0 <= l => Level(NE, l));
      forall l | 0 <= l < n
        ensures Ls[l] == Level(E, l) && qs[l] == Before(Level(E, l), k) && Ns[l] == Level(NE, l)
      {
      }
    }

    /** No node of a valid list is above a level whose list is empty. */
    lemma EmptyLevelAbove(l: nat)
      requires Level(Elems, l) == []
      ensures forall i :: 0 <= i < |Elems| ==> Elems[i].nodeLevel < l
    {
      LevelMembers(Elems, l);
    }

    /** In a valid list the head points to nothing on every level above the current one. */
    lemma HeadAboveNull()
      requires Valid()
      ensures forall l :: curLevel < l <= maxLevel ==> head.forward[l] == null
    {
      forall l | curLevel < l <= maxLevel
        ensures head.forward[l] == null
      {
        LevelAboveEmpty(Elems, l);
        assert Chain(l, Level(Elems, l)) && At(Level(Elems, l), 0) == head;
      }
    }

    /** Lines 256-258 of `delete_element`: while the current level is above 0 and the head
        has no successor on it, the current level goes down by one. It ends at the highest
        level in use, or at 0. */
    method Shrink()
      requires Linked()
      modifies this
      ensures Valid()
      ensures Elems == old(Elems) && Repr == old(Repr) && elementCount == old(elementCount)
      ensures curLevel <= old(curLevel)
      ensures forall l :: curLevel < l <= old(curLevel) ==> Level(Elems, l) == []
    {
      while curLevel > 0 && head.forward[curLevel] == null
        invariant Linked()
        invariant Elems == old(Elems) && Repr == old(Repr) && elementCount == old(elementCount)
        invariant curLevel <= old(curLevel)
        invariant forall l :: curLevel < l <= old(curLevel) ==> Level(Elems, l) == []
      {
        assert Chain(curLevel, Level(Elems, curLevel)) && At(Level(Elems, curLevel), 0) == head;
        EmptyLevelAbove(curLevel);
        curLevel := curLevel - 1;
      }
      if curLevel > 0 {
        assert Chain(curLevel, Level(Elems, curLevel)) && At(Level(Elems, curLevel), 0) == head;
      }
    }

    /** Lines 241-265 of `delete_element` once `x`, the node carrying the key, has been
        found: it is unlinked, the empty top levels are given up and the count goes down,
        which removes exactly its key from the mapping. */
    method DeleteNode(update: array<Node?>, x: Node)
      requires Valid() && update !in Repr && update.Length == maxLevel + 1
      requires Before(Elems, x.key) < |Elems| && Elems[Before(Elems, x.key)] == x
      requires forall l :: 0 <= l <= curLevel ==> update[l] == Pred(l, x.key)
      modifies this, Repr
      ensures Valid() && Repr == old(Repr)
      ensures var p := Before(old(Elems), x.key);
              && Elems == old(Elems)[..p] + old(Elems)[p + 1..]
              && elementCount == old(elementCount) - 1
              && curLevel <= old(curLevel)
              && (forall l :: curLevel < l <= old(curLevel) ==> Level(Elems, l) == [])
      ensures x.key !in KeysOf(Elems)
      ensures Contents() == old(Contents()) - {x.key}
    {
      ghost var OldE := Elems;
      ghost var p := Before(OldE, x.key);
      Remove(update, x);
      Shrink();
      PairsRemove(OldE, p);
      PairsKept(OldE);
    }

    /** `delete_element`: a stored key is unlinked on every level it reaches, empty top
        levels are given up and the count goes down; an absent key changes nothing. Either
        way the key is absent afterwards. */
    method Delete(key: string)
      requires Valid()
      modifies Repr
      ensures Valid() && Repr == old(Repr)
      ensures key !in old(KeysOf(Elems)) ==>
                Elems == old(Elems) && curLevel == old(curLevel) && elementCount == old(elementCount) && unchanged(Repr)
      ensures key in old(KeysOf(Elems)) ==>
                var p := Before(old(Elems), key);
                && p < |old(Elems)| && old(Elems)[p].key == key
                && Elems == old(Elems)[..p] + old(Elems)[p + 1..]
                && elementCount == old(elementCount) - 1
                && curLevel <= old(curLevel)
                && (forall l :: curLevel < l <= old(curLevel) ==> Level(Elems, l) == [])
      ensures key !in KeysOf(Elems)
      ensures Contents() == old(Contents()) - {key}
    {
      ghost var m0 := Contents();
      ContentsKeys(key);
      var update := FindUpdate(key);
      Unmoved();
      FoundAfterPred(key);
      var current := update[0].forward[0];
      if current != null && current.key == key {
        DeleteNode(update, current);
      } else {
        assert m0 - {key} == m0;
      }
    }

    /** A step that changed neither the list object, nor any array of its footprint, nor
        any of its nodes keeps the invariant and the mapping. */
    twostate lemma Unmoved()
      requires old(Valid())
      requires unchanged(this) && unchanged(Repr) && forall n :: n in Elems ==> unchanged(n)
      ensures Valid() && Contents() == old(Contents())
    {
      PairsKept(Elems);
    }

    /** `size`: the element count, which is the number of keys the list maps. */
    method Size() returns (n: int)
      requires Valid()
      ensures n == |Elems| && n == |Contents()|
    {
      n := elementCount;
      SortedDistinct(Elems);
      MapOfSize(PairsOf(Elems));
    }

    /** The walk along level `i` of `display_list` (lines 150-155) and, on level 0, of
        `dump_file` (lines 165-171): from the head's successor on that level to the end,
        the key and value of each node, in order. */
    method WalkLevel(i: nat) returns (pairs: seq<Pair>)
      requires Chain(i, Level(Elems, i))
      ensures pairs == PairsOf(Level(Elems, i))
    {
      ghost var L := Level(Elems, i);
      assert Chain(i, L) && At(L, 0) == head;
      var node := head.forward[i];
      ghost var j := 0;
      pairs := [];
      while node != null
        invariant Chain(i, L)
        invariant j <= |L| && node == (if j < |L| then L[j] else null)
        invariant |pairs| == j
        invariant forall m :: 0 <= m < j ==> pairs[m] == (L[m].key, L[m].value)
        decreases |L| - j
      {
        assert At(L, j + 1) == node;
        pairs := pairs + [(node.GetKey(), node.GetValue())];
        node := node.forward[i];
        j := j + 1;
      }
      PairsAre(L, pairs);
    }

    /** `dump_file`: the text of the store file, one `key:value` record and a line break
        per stored pair, in key order. Read back by `load_file` into an empty list it gives
        the same mapping, as long as no key holds the delimiter, no key or value holds a
        line break, and no key or value is empty. */
    method Dump() returns (text: string)
      requires Valid()
      ensures text == LineCodec.FileText(LineCodec.DumpLines(PairsOf(Elems)))
      ensures (forall n :: n in Elems ==> Dumpable(n.key, n.value)) ==>
                LineCodec.Load(map[], LineCodec.ReadLines(text), "", "") == Contents()
    {
      LevelZero(Elems);
      assert Chain(0, Level(Elems, 0));
      var pairs := WalkLevel(0);
      text := LineCodec.FileText(LineCodec.DumpLines(pairs));
      if forall n :: n in Elems ==> Dumpable(n.key, n.value) {
        ghost var ps := PairsOf(Elems);
        forall k | 0 <= k < |ps|
          ensures LineCodec.Delimiter !in ps[k].0 && '\n' !in ps[k].0 && '\n' !in ps[k].1 && ps[k].0 != "" && ps[k].1 != ""
        {
          assert Elems[k] in Elems;
        }
        LineCodec.DumpThenLoadIntoEmpty(ps);
      }
    }

    /** `display_list`: the records of every level in use, from level 0 up. */
    method Display() returns (levels: seq<seq<string>>)
      requires Valid()
      ensures |levels| == curLevel + 1
      ensures forall i :: 0 <= i <= curLevel ==> levels[i] == LineCodec.DumpLines(PairsOf(Level(Elems, i)))
    {
      levels := ShowLevels();
    }

    /** The level loop of `display_list` (lines 149-157): each level in use walked in turn. */
    method ShowLevels() returns (levels: seq<seq<string>>)
      requires curLevel <= maxLevel && forall l :: 0 <= l <= curLevel ==> Chain(l, Level(Elems, l))
      ensures |levels| == curLevel + 1
      ensures forall i :: 0 <= i <= curLevel ==> levels[i] == LineCodec.DumpLines(PairsOf(Level(Elems, i)))
    {
      levels := [];
      var i := 0;
      while i <= curLevel
        invariant i <= curLevel + 1 && |levels| == i
        invariant Elems == old(Elems)
        invariant forall l :: 0 <= l < i ==> levels[l] == LineCodec.DumpLines(old(PairsOf(Level(Elems, l))))
      {
        var pairs := WalkLevel(i);
        PairsKept(Level(Elems, i));
        assert pairs == old(PairsOf(Level(Elems, i)));
        ghost var prev := levels;
        levels := levels + [LineCodec.DumpLines(pairs)];
        forall l | 0 <= l <= i
          ensures levels[l] == LineCodec.DumpLines(old(PairsOf(Level(Elems, l))))
        {
          if l < i {
            assert levels[l] == prev[l];
          }
        }
        i := i + 1;
      }
      forall l | 0 <= l <= curLevel
        ensures levels[l] == LineCodec.DumpLines(PairsOf(Level(Elems, l)))
      {
        PairsKept(Level(Elems, l));
      }
    }

    /** `load_file` on the text of the store file, with `coins[j]` the coin flips for the
        insertion of line `j` (none when `coins` is shorter): each line is parsed into
        the running key and value, and the pair is inserted unless one of them is empty. */
    method Load(text: string, coins: seq<seq<bool>>)
      requires Valid()
      modifies Repr
      ensures Valid() && fresh(Repr - old(Repr))
      ensures Contents() == LineCodec.Load(old(Contents()), LineCodec.ReadLines(text), "", "")
    {
      LoadLines(LineCodec.ReadLines(text), coins);
    }

    /** The line loop of `load_file` (lines 186-193) over the lines read from the file. */
    method LoadLines(lines: seq<string>, coins: seq<seq<bool>>)
      requires Valid()
      modifies Repr
      ensures Valid() && fresh(Repr - old(Repr))
      ensures Contents() == LineCodec.Load(old(Contents()), lines, "", "")
    {
      var key := "";
      var value := "";
      var j := 0;
      while j < |lines|
        invariant j <= |lines|
        invariant Valid() && fresh(Repr - old(Repr))
        invariant LineCodec.Load(Contents(), lines[j..], key, value) == LineCodec.Load(old(Contents()), lines, "", "")
      {
        assert lines[j..][1..] == lines[j + 1..];
        var kv := LineCodec.GetKeyValue(lines[j], key, value);
        key, value := kv.0, kv.1;
        if key != "" && value != "" {
          var flips := if j < |coins| then coins[j] else [];
          var _ := Insert(key, value, flips);
        }
        j := j + 1;
      }
    }
  }

  /** A pair `dump_file` writes as one record that `load_file` reads back as written: the
      key holds no delimiter, neither half holds a line break, and neither is empty. */
  predicate Dumpable(key: string, value: string)
  {
    LineCodec.Delimiter !in key && '\n' !in key && '\n' !in value && key != "" && value != ""
  }

  /** Putting a node with an absent key into the list adds exactly its entry to the mapping. */
  lemma PairsInsert(s: seq<Node>, p: nat, x: Node)
    requires p <= |s| && x.key !in KeysOf(s)
    ensures x.key !in MapOf(PairsOf(s))
    ensures MapOf(PairsOf(s[..p] + [x] + s[p..])) == MapOf(PairsOf(s))[x.key := x.value]
  {
    var a: seq<Pair> := PairsOf(s[..p]);
    var b: seq<Pair> := PairsOf(s[p..]);
    var e: Pair := (x.key, x.value);
    PairsOfAppend(s[..p] + [x], s[p..]);
    PairsOfAppend(s[..p], [x]);
    assert PairsOf([x]) == [e];
    assert PairsOf(s[..p] + [x] + s[p..]) == a + [e] + b;
    assert s == s[..p] + s[p..];
    PairsOfAppend(s[..p], s[p..]);
    assert PairsOf(s) == a + b;
    assert x.key !in MapOf(a + b) by {
      forall i | 0 <= i < |a + b|
        ensures (a + b)[i].0 != x.key
      {
        assert (a + b)[i].0 == KeysOf(s)[i];
      }
    }
    MapOfInsert(a, e, b);
  }

  /** The pairs of nodes whose fields are all as they were are as they were. */
  twostate lemma PairsKept(s: seq<Node>)
    requires forall n :: n in s ==> unchanged(n)
    ensures PairsOf(s) == old(PairsOf(s))
  {
    forall i | 0 <= i < |s|
      ensures PairsOf(s)[i] == old(PairsOf(s))[i]
    {
      assert s[i] in s;
    }
  }

  /** After a node is put in and the top level raised to its level if need be, the top
      level is still in use (or 0). */
  lemma TopStaysInUse(s: seq<Node>, x: Node, top: nat)
    requires Sorted(s)
    requires top == 0 || Level(s, top) != []
    ensures var c := if top < x.nodeLevel then x.nodeLevel else top;
            var p := Before(s, x.key);
            c == 0 || Level(s[..p] + [x] + s[p..], c) != []
  {
    var c := if top < x.nodeLevel then x.nodeLevel else top;
    LevelInsertAt(s, x, c);
  }

  lemma {:induction false} PairsOfAppend(a: seq<Node>, b: seq<Node>)
    ensures PairsOf(a + b) == PairsOf(a) + PairsOf(b)
  {
    if a != [] {
      assert (a + b)[1..] == a[1..] + b;
      PairsOfAppend(a[1..], b);
    }
  }

  /** The per-node facts of the invariant survive putting in a node that satisfies them. */
  lemma NodesFit(s: seq<Node>, p: nat, x: Node, R: set<object>, c: nat)
    requires p <= |s|
    requires forall n :: n in s ==> n !in R
    requires forall i :: 0 <= i < |s| ==>
               s[i].forward in R && s[i].forward.Length == s[i].nodeLevel + 1 && s[i].nodeLevel <= c
    requires x !in R && x.forward in R && x.forward.Length == x.nodeLevel + 1 && x.nodeLevel <= c
    ensures var t := s[..p] + [x] + s[p..];
            && (forall n :: n in t ==> n !in R)
            && (forall i :: 0 <= i < |t| ==>
                  t[i].forward in R && t[i].forward.Length == t[i].nodeLevel + 1 && t[i].nodeLevel <= c)
  {
    var t := s[..p] + [x] + s[p..];
    forall n | n in t
      ensures n !in R
    {
      var i :| 0 <= i < |t| && t[i] == n;
      if i < p {
        assert t[i] == s[i];
      } else if i > p {
        assert t[i] == s[i - 1];
      }
    }
    forall i | 0 <= i < |t|
      ensures t[i].forward in R && t[i].forward.Length == t[i].nodeLevel + 1 && t[i].nodeLevel <= c
    {
      if i < p {
        assert t[i] == s[i];
      } else if i > p {
        assert t[i] == s[i - 1];
      }
    }
  }

  /** Taking out the node at `p`, whose key occurs nowhere else, removes exactly its key
      from the mapping. */
  lemma PairsRemove(s: seq<Node>, p: nat)
    requires p < |s| && s[p].key !in KeysOf(s[..p] + s[p + 1..])
    ensures MapOf(PairsOf(s[..p] + s[p + 1..])) == MapOf(PairsOf(s)) - {s[p].key}
  {
    var t := s[..p] + s[p + 1..];
    var x := s[p];
    PutBack(s, p);
    PairsInsert(t, p, x);
    AddThenRemove(MapOf(PairsOf(t)), x.key, x.value);
  }

  /** Putting the element at `p` back where it was taken out restores the sequence. */
  lemma PutBack<T>(s: seq<T>, p: nat)
    requires p < |s|
    ensures var t := s[..p] + s[p + 1..];
            t[..p] + [s[p]] + t[p..] == s
  {
    var t := s[..p] + s[p + 1..];
    assert t[..p] == s[..p] && t[p..] == s[p + 1..];
    assert s == s[..p] + [s[p]] + s[p + 1..];
  }

  /** The per-node facts of the invariant survive taking a node out. */
  lemma NodesKept(s: seq<Node>, p: nat, R: set<object>, c: nat)
    requires p < |s|
    requires forall n :: n in s ==> n !in R
    requires forall i :: 0 <= i < |s| ==>
               s[i].forward in R && s[i].forward.Length == s[i].nodeLevel + 1 && s[i].nodeLevel <= c
    ensures var t := s[..p] + s[p + 1..];
            && (forall n :: n in t ==> n !in R)
            && (forall i :: 0 <= i < |t| ==>
                  t[i].forward in R && t[i].forward.Length == t[i].nodeLevel + 1 && t[i].nodeLevel <= c)
  {
    var t := s[..p] + s[p + 1..];
    forall n | n in t
      ensures n !in R
    {
      var i :| 0 <= i < |t| && t[i] == n;
      if i < p {
        assert t[i] == s[i];
      } else {
        assert t[i] == s[i + 1];
      }
    }
    forall i | 0 <= i < |t|
      ensures t[i].forward in R && t[i].forward.Length == t[i].nodeLevel + 1 && t[i].nodeLevel <= c
    {
      if i < p {
        assert t[i] == s[i];
      } else {
        assert t[i] == s[i + 1];
      }
    }
  }

  /** Strictly increasing keys are distinct. */
  lemma SortedDistinct(s: seq<Node>)
    requires Sorted(s)
    ensures DistinctKeys(PairsOf(s))
  {
    var ps := PairsOf(s);
    forall i, j | 0 <= i < j < |ps|
      ensures ps[i].0 != ps[j].0
    {
      if ps[i].0 == ps[j].0 {
        LessIrreflexive(s[i].key);
      }
    }
  }

  /** A sequence holding the key and value of each node of `s`, in order, is the pairs of `s`. */
  lemma PairsAre(s: seq<Node>, ps: seq<Pair>)
    requires |ps| == |s| && forall m :: 0 <= m < |s| ==> ps[m] == (s[m].key, s[m].value)
    ensures ps == PairsOf(s)
  {
  }
}
