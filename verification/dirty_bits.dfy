/** The dirty vector of the report panel (`chartNeedsUpdate`), one bit per chart. A Java
    BitSet may hold bits past the chart count (its `size()` is a capacity, not a count);
    no such bit is ever read, so the model keeps one bit per sequence entry and a write
    past the end changes nothing observable. */
module DirtyBits {

  /** `set(0, size(), true)`. */
  function SetAll(bits: seq<bool>): (r: seq<bool>)
    ensures |r| == |bits| && forall i :: 0 <= i < |r| ==> r[i]
  {
    seq(|bits|, _ => true)
  }

  /** `set(i)`. */
  function Set(bits: seq<bool>, i: int): (r: seq<bool>)
    ensures |r| == |bits|
    ensures forall k :: 0 <= k < |r| ==> r[k] == (bits[k] || k == i)
  {
    if 0 <= i < |bits| then bits[i := true] else bits
  }

  /** `clear(i)`. */
  function Clear(bits: seq<bool>, i: int): (r: seq<bool>)
    ensures |r| == |bits|
    ensures forall k :: 0 <= k < |r| ==> r[k] == (bits[k] && k != i)
  {
    if 0 <= i < |bits| then bits[i := false] else bits
  }

  /** `flip(i)`; a negative index throws, so the caller has ruled it out. */
  function Flip(bits: seq<bool>, i: nat): (r: seq<bool>)
    ensures |r| == |bits|
    ensures forall k :: 0 <= k < |r| ==> r[k] == (if k == i then !bits[k] else bits[k])
  {
    if i < |bits| then bits[i := !bits[i]] else bits
  }

  /** The listeners' loop `for i in 0..|items|: if sensitive(items[i]) then set(i)`,
      from position `i` on. Bits are only ever set, never cleared. */
  function MarkFrom<C>(bits: seq<bool>, items: seq<C>, sensitive: C -> bool, i: nat): (r: seq<bool>)
    requires i <= |items| <= |bits|
    ensures |r| == |bits|
    ensures forall k :: 0 <= k < |bits| ==> r[k] == (bits[k] || (i <= k < |items| && sensitive(items[k])))
    decreases |items| - i
  {
    if i == |items| then bits
    else MarkFrom(if sensitive(items[i]) then Set(bits, i) else bits, items, sensitive, i + 1)
  }

  /** The whole loop: afterwards a bit is set iff it was set or its item is sensitive. */
  function Mark<C>(bits: seq<bool>, items: seq<C>, sensitive: C -> bool): (r: seq<bool>)
    requires |items| <= |bits|
    ensures |r| == |bits|
    ensures forall k :: 0 <= k < |bits| ==> r[k] == (bits[k] || (k < |items| && sensitive(items[k])))
  {
    MarkFrom(bits, items, sensitive, 0)
  }
}
