/** What stands where in a byte string, and in one that is made up of parts. */
module Layout {
  import opened Bytes
  import opened Common
  import opened Sums

  ghost predicate Stands(data: Bytes, pos: nat, part: Bytes) {
    pos + |part| <= |data| && data[pos..pos + |part|] == part
  }

  lemma StandsInside(data: Bytes, pos: nat, inner: Bytes, at: nat, part: Bytes)
    requires Stands(data, pos, inner) && Stands(inner, at, part)
    ensures Stands(data, pos + at, part)
  {
    forall i | 0 <= i < |part|
      ensures data[pos + at + i] == part[i]
    {
      assert inner[at + i] == inner[at..at + |part|][i];
    }
  }

  lemma StandsBefore(data: Bytes, pos: nat, part: Bytes, tail: Bytes)
    requires Stands(data, pos, part)
    ensures Stands(data + tail, pos, part)
  {
    assert (data + tail)[pos..pos + |part|] == data[pos..pos + |part|];
  }

  lemma StandsBehind(front: Bytes, data: Bytes, pos: nat, part: Bytes)
    requires Stands(data, pos, part)
    ensures Stands(front + data, |front| + pos, part)
  {
    assert (front + data)[|front| + pos..|front| + pos + |part|] == data[pos..pos + |part|];
  }

  lemma {:induction false} PartStands(parts: seq<Bytes>, k: nat)
    requires k < |parts|
    ensures Stands(Join(parts), Offset(parts, k), parts[k])
  {
    if k == 0 {
      assert Join(parts)[0..|parts[0]|] == parts[0];
    } else {
      PartStands(parts[1..], k - 1);
      OffsetOfTail(parts, k);
      StandsBehind(parts[0], Join(parts[1..]), Offset(parts[1..], k - 1), parts[k]);
    }
  }

  lemma NextOffset(parts: seq<Bytes>, k: nat)
    requires k < |parts|
    ensures Offset(parts, k + 1) == Offset(parts, k) + |parts[k]|
  {
  }

  function Lengths(parts: seq<Bytes>): (r: seq<nat>)
    ensures |r| == |parts|
  {
    seq(|parts|, i requires 0 <= i < |parts| => |parts[i]|)
  }

  lemma {:induction false} TotalOfLengths(parts: seq<Bytes>, k: nat)
    requires k <= |parts|
    ensures Total(Lengths(parts), k) == Offset(parts, k)
  {
    if k != 0 {
      TotalOfLengths(parts, k - 1);
    }
  }

  lemma {:induction false} JoinLength(parts: seq<Bytes>)
    ensures |Join(parts)| == Offset(parts, |parts|)
  {
    if parts != [] {
      JoinLength(parts[1..]);
      OffsetOfTail(parts, |parts|);
    }
  }

  // ---------- numbers in a byte string ----------

  /** The number in the given bytes, least significant first. */
  function LittleAt(data: Bytes, pos: nat, width: nat): nat
    requires pos + width <= |data|
  {
    LittleValue(data[pos..pos + width])
  }

  /** The number in the given bytes, most significant first. */
  function BigAt(data: Bytes, pos: nat, width: nat): nat
    requires pos + width <= |data|
  {
    Value(data[pos..pos + width])
  }

  /** A little-endian number stands at a position. */
  ghost predicate NumberStands(data: Bytes, pos: nat, width: nat, v: nat) {
    pos + width <= |data| && LittleAt(data, pos, width) == v
  }

  /** A big-endian number stands at a position. */
  ghost predicate BigStands(data: Bytes, pos: nat, width: nat, v: nat) {
    pos + width <= |data| && BigAt(data, pos, width) == v
  }

  lemma {:induction false} LittleStands(data: Bytes, pos: nat, width: nat, v: nat)
    requires Stands(data, pos, Little(v, width)) && v < Pow2(8 * width)
    ensures NumberStands(data, pos, width, v)
  {
    LittleValueOfLittle(v, width);
  }

  lemma ReadAt(data: Bytes, pos: nat, part: Bytes)
    requires Stands(data, pos, part)
    ensures NumberStands(data, pos, |part|, LittleValue(part)) && BigStands(data, pos, |part|, Value(part))
  {
  }
}
