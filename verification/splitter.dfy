/** The splitter (Splitter.kt): a joined port whose bits are distributed
    over fan ports by a bit-to-fan map. Bit j of the joined value belongs
    to fan `indices[j]`; a negative index belongs to no fan. */
module Splitters {
  import opened Wrappers
  import opened WireValues
  import opened Components

  /** The bit-to-fan map, one entry per bit of the joined port. */
  type FanMap = seq<int>

  // ----- construction -----

  /** `setupBitFanIndices(bitSize, fanouts)`: bit i goes to fan
      i / ceil(bitSize / fanouts). The division by zero when there are bits
      but no fans is the source's ArithmeticException. */
  function DefaultIndices(bitSize: nat, fanouts: nat): (r: Result<FanMap>)
    ensures r.Failure? <==> bitSize > 0 && fanouts == 0
    ensures r.Success? ==> |r.value| == bitSize
  {
    if bitSize == 0 then Success([])
    else if fanouts == 0 then Failure(Runtime("/ by zero"))
    else
      var per := (bitSize + fanouts - 1) / fanouts;
      Success(seq(bitSize, i requires 0 <= i < bitSize => i / per))
  }

  /** With some fans, every bit is sent to a fan that exists, and fan k
      receives the consecutive block of bits starting at k times the block
      size. */
  lemma DefaultIndicesInRange(bitSize: nat, fanouts: nat)
    requires bitSize > 0 && fanouts > 0
    ensures var per := (bitSize + fanouts - 1) / fanouts;
      && per >= 1
      && forall i | 0 <= i < bitSize ::
           && 0 <= DefaultIndices(bitSize, fanouts).value[i] < fanouts
           && DefaultIndices(bitSize, fanouts).value[i] * per <= i < (DefaultIndices(bitSize, fanouts).value[i] + 1) * per
  {
    var per := (bitSize + fanouts - 1) / fanouts;
    assert per * fanouts >= bitSize by {
      assert (bitSize + fanouts - 1) == per * fanouts + (bitSize + fanouts - 1) % fanouts;
    }
    var r := DefaultIndices(bitSize, fanouts).value;
    forall i | 0 <= i < bitSize
      ensures 0 <= r[i] < fanouts && r[i] * per <= i < (r[i] + 1) * per
    {
      BlockOf(i, per, fanouts, bitSize);
    }
  }

  /** Bit i lies in block i / per, and that block is one of the fans. */
  lemma BlockOf(i: nat, per: nat, fanouts: nat, bitSize: nat)
    requires per >= 1 && i < bitSize <= per * fanouts
    ensures 0 <= i / per < fanouts && (i / per) * per <= i < (i / per + 1) * per
  {
    var q := i / per;
    assert i == q * per + i % per;
    assert q * per < fanouts * per;
  }

  /** The largest entry of a non-empty map. */
  function Max(indices: FanMap): (m: int)
    requires |indices| > 0
    ensures m in indices
    ensures forall j | 0 <= j < |indices| :: indices[j] <= m
  {
    if |indices| == 1 then indices[0]
    else
      var rest := Max(indices[1..]);
      assert forall j | 1 <= j < |indices| :: indices[j] == indices[1..][j - 1];
      if indices[0] >= rest then indices[0] else rest
  }

  /** How many bits a fan owns. */
  function Count(indices: FanMap, k: int): (c: nat)
    ensures c <= |indices|
  {
    if |indices| == 0 then 0
    else (if indices[0] == k then 1 else 0) + Count(indices[1..], k)
  }

  /** `setupPortBitsizes`: fan port k is as wide as the number of bits
      mapped to it, for k up to the largest index, and the joined port that
      follows is as wide as the whole map. An empty map has no maximum, and
      a largest index below -1 makes the port array too small for the
      joined port. */
  function PortBitsizes(indices: FanMap): (r: Result<seq<nat>>)
    ensures r.Success? <==> |indices| > 0 && Max(indices) >= -1
    ensures r.Success? ==>
      && |r.value| == Max(indices) + 2
      && r.value[|r.value| - 1] == |indices|
      && forall k | 0 <= k < |r.value| - 1 :: r.value[k] == Count(indices, k)
  {
    if |indices| == 0 then Failure(Runtime("Array is empty."))
    else
      var m := Max(indices);
      if m < -2 then Failure(Runtime("negative array size"))
      else if m == -2 then Failure(IndexOutOfBounds)
      else Success(seq(m + 2, k requires 0 <= k < m + 2 => if k == m + 1 then |indices| else Count(indices, k)))
  }

  // ----- splitting and joining -----

  /** The bits of a joined value that fan k owns, in ascending order. */
  function Gather(v: WireValue, indices: FanMap, k: int): (r: WireValue)
    requires |v| == |indices|
    ensures |r| == Count(indices, k)
  {
    if |indices| == 0 then []
    else (if indices[0] == k then [v[0]] else []) + Gather(v[1..], indices[1..], k)
  }

  /** Overwrites, in ascending order, the bits of `joined` that fan k owns
      with the bits of `fan`; every other bit is kept. */
  function Scatter(joined: WireValue, indices: FanMap, k: int, fan: WireValue): (r: WireValue)
    requires |joined| == |indices| && |fan| == Count(indices, k)
    ensures |r| == |joined|
  {
    if |indices| == 0 then []
    else if indices[0] == k then [fan[0]] + Scatter(joined[1..], indices[1..], k, fan[1..])
    else [joined[0]] + Scatter(joined[1..], indices[1..], k, fan)
  }

  /** Writing back the bits gathered from v puts v's bits at exactly the
      positions fan k owns and leaves every other position alone. */
  lemma {:induction false} ScatterGather(base: WireValue, v: WireValue, indices: FanMap, k: int)
    requires |base| == |v| == |indices|
    ensures forall i | 0 <= i < |indices| ::
      Scatter(base, indices, k, Gather(v, indices, k))[i] == (if indices[i] == k then v[i] else base[i])
    decreases |indices|
  {
    if |indices| > 0 {
      ScatterGather(base[1..], v[1..], indices[1..], k);
      var g := Gather(v, indices, k);
      var rest := Gather(v[1..], indices[1..], k);
      if indices[0] == k {
        assert g == [v[0]] + rest;
        assert g[1..] == rest;
      } else {
        assert g == rest;
      }
    }
  }

  /** Gathering what was scattered gives the fan's bits back. */
  lemma {:induction false} GatherScatter(joined: WireValue, indices: FanMap, k: int, fan: WireValue)
    requires |joined| == |indices| && |fan| == Count(indices, k)
    ensures Gather(Scatter(joined, indices, k, fan), indices, k) == fan
    decreases |indices|
  {
    if |indices| > 0 {
      var s := Scatter(joined, indices, k, fan);
      if indices[0] == k {
        GatherScatter(joined[1..], indices[1..], k, fan[1..]);
        assert s[1..] == Scatter(joined[1..], indices[1..], k, fan[1..]);
        assert fan == [fan[0]] + fan[1..];
      } else {
        GatherScatter(joined[1..], indices[1..], k, fan);
        assert s[1..] == Scatter(joined[1..], indices[1..], k, fan);
      }
    }
  }

  /** Splitting a joined value and writing the same fan back leaves it unchanged. */
  lemma SplitThenJoin(v: WireValue, indices: FanMap, k: int)
    requires |v| == |indices|
    ensures Scatter(v, indices, k, Gather(v, indices, k)) == v
  {
    ScatterGather(v, v, indices, k);
  }

  /** The check on the joined port: the map's length against the value's width. */
  function JoinedMessage(title: string, mapped: nat, width: nat): string
  {
    title + ": something went wrong somewhere. bitFanIndices = " + WidthText(mapped) + ", value.getBitSize() = " + WidthText(width)
  }

  /** The check on a fan port: the bits used against the value's width. */
  function FanMessage(title: string, used: nat, width: nat): string
  {
    title + ": something went wrong somewhere. currBit = " + WidthText(used) + ", value.getBitSize() = " + WidthText(width)
  }

  /** `Splitter.valueChanged`. An event on the joined port (the last one)
      checks the value is as wide as the map and pushes to every fan port
      the bits it owns. An event on a fan port starts from the value last
      pushed on the joined port, overwrites that fan's bits with the new
      value's, checks every bit of the value was used, and pushes the
      result on the joined port. Reading past the end of a too-narrow fan
      value is an index error. Both checks name the component by `title`,
      its `toString` (the name, or the class and hash code when unnamed). */
  function ValueChanged(title: string, indices: FanMap, numPorts: nat, lastPushedJoined: WireValue, port: nat, value: WireValue): (r: Result<seq<Push>>)
    requires numPorts >= 1 && port < numPorts && |lastPushedJoined| == |indices|
    ensures port == numPorts - 1 && |value| != |indices| ==> r == Failure(IllegalState(JoinedMessage(title, |indices|, |value|)))
    ensures port == numPorts - 1 && |value| == |indices| ==>
      && r.Success? && |r.value| == numPorts - 1
      && forall i | 0 <= i < numPorts - 1 :: r.value[i].port == i && r.value[i].value == Gather(value, indices, i)
    ensures port < numPorts - 1 ==>
      && (r.Success? <==> |value| == Count(indices, port))
      && (Count(indices, port) > |value| ==> r == Failure(IndexOutOfBounds))
      && (Count(indices, port) < |value| ==> r == Failure(IllegalState(FanMessage(title, Count(indices, port), |value|))))
      && (r.Success? ==> |r.value| == 1 && r.value[0].port == numPorts - 1 && |r.value[0].value| == |indices|
                         && Gather(r.value[0].value, indices, port) == value
                         && forall i | 0 <= i < |indices| && indices[i] != port ::
                              r.value[0].value[i] == lastPushedJoined[i])
  {
    if port == numPorts - 1 then
      if |indices| != |value| then Failure(IllegalState(JoinedMessage(title, |indices|, |value|)))
      else Success(seq(numPorts - 1, i requires 0 <= i < numPorts - 1 => Push(i, Gather(value, indices, i))))
    else
      var c := Count(indices, port);
      if c > |value| then Failure(IndexOutOfBounds)
      else if c < |value| then Failure(IllegalState(FanMessage(title, c, |value|)))
      else
        var joined := Scatter(lastPushedJoined, indices, port, value);
        assert Gather(joined, indices, port) == value by {
          GatherScatter(lastPushedJoined, indices, port, value);
        }
        assert forall i | 0 <= i < |indices| && indices[i] != port :: joined[i] == lastPushedJoined[i] by {
          ScatterKeeps(lastPushedJoined, indices, port, value);
        }
        Success([Push(numPorts - 1, joined)])
  }

  /** Scattering one fan never touches a bit another fan owns. */
  lemma {:induction false} ScatterKeeps(joined: WireValue, indices: FanMap, k: int, fan: WireValue)
    requires |joined| == |indices| && |fan| == Count(indices, k)
    ensures forall i | 0 <= i < |indices| && indices[i] != k :: Scatter(joined, indices, k, fan)[i] == joined[i]
    decreases |indices|
  {
    if |indices| > 0 {
      if indices[0] == k {
        ScatterKeeps(joined[1..], indices[1..], k, fan[1..]);
      } else {
        ScatterKeeps(joined[1..], indices[1..], k, fan);
      }
    }
  }

  /** Writes back, for fans 0 .. fans-1 in turn, the bits gathered from v. */
  function JoinAll(base: WireValue, v: WireValue, indices: FanMap, fans: nat): (r: WireValue)
    requires |base| == |v| == |indices|
    ensures |r| == |base|
  {
    if fans == 0 then base
    else
      var prev := JoinAll(base, v, indices, fans - 1);
      Scatter(prev, indices, fans - 1, Gather(v, indices, fans - 1))
  }

  /** Splitting a joined value over the fans and writing every fan back, one
      after another, reproduces the joined value at every bit some fan owns. */
  lemma {:induction false} JoinAllBits(base: WireValue, v: WireValue, indices: FanMap, fans: nat)
    requires |base| == |v| == |indices|
    ensures forall i | 0 <= i < |indices| ::
      JoinAll(base, v, indices, fans)[i] == (if 0 <= indices[i] < fans then v[i] else base[i])
  {
    if fans > 0 {
      JoinAllBits(base, v, indices, fans - 1);
      var prev := JoinAll(base, v, indices, fans - 1);
      ScatterGather(prev, v, indices, fans - 1);
    }
  }
}
