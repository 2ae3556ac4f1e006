/** One key/value record of the skip list together with its per-level successors
    (Node.hpp). */
module Nodes {

  class Node {
    /** The key never changes after construction. */
    const key: string
    var value: string
    /** The highest level this node takes part in; 0 means the base list only. */
    const nodeLevel: nat
    /** `forward[i]` is the next node on level `i`, or null at the end of that level. */
    const forward: array<Node?>

    /** Stores the key, value and level, and allocates `level + 1` successor slots,
        every one of them cleared to null. */
    constructor (k: string, v: string, level: nat)
      ensures key == k && value == v && nodeLevel == level
      ensures fresh(forward) && forward.Length == level + 1
      ensures forall i :: 0 <= i < forward.Length ==> forward[i] == null
    {
      var slots := new Node?[level + 1];
      var i := 0;
      while i < level + 1
        invariant 0 <= i <= level + 1
        invariant forall j :: 0 <= j < i ==> slots[j] == null
      {
        slots[i] := null;
        i := i + 1;
      }
      key, value, nodeLevel, forward := k, v, level, slots;
    }

    /** The key given to the constructor: `key` is a constant. */
    function GetKey(): (k: string)
      ensures k == key
    {
      key
    }

    /** The value last stored by the constructor or by `SetValue`. */
    function GetValue(): (v: string)
      reads this
      ensures v == value
    {
      value
    }

    /** Replaces the value; the key, the level and every successor slot stay as they were. */
    method SetValue(v: string)
      modifies this
      ensures value == v
      ensures unchanged(forward)
    {
      value := v;
    }
  }

  /** A client of the node alone: the key survives value updates, and reading the
      value gives back the latest one stored. */
  method NodeUsage()
  {
    var n := new Node("9", "zhen", 2);
    assert n.GetKey() == "9" && n.GetValue() == "zhen";
    assert n.forward.Length == 3 && n.forward[2] == null;
    n.SetValue("ye");
    assert n.GetKey() == "9" && n.GetValue() == "ye" && n.nodeLevel == 2;
    assert n.forward[0] == null;
  }
}
