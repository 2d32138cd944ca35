/** The plexers: multiplexer (Multiplexer.kt), demultiplexer
    (Demultiplexer.kt), decoder (Decoder.kt) and priority encoder
    (PriorityEncoder.kt).

    Each has 2^s data ports indexed from 0 and an s-bit selector or output
    after them. A port array of 2^s + c entries must have a positive Int
    size, so s is at most 30; an s-bit selector is then narrower than 32
    bits and its `value` is its unsigned reading (`WireValues.ValueSmall`),
    which is what the functions below use. */
module Plexers {
  import opened BitMath
  import opened WireValues
  import opened Components

  // ----- multiplexer -----

  /** 2^s data inputs of n bits, the s-bit selector at index 2^s, then the
      n-bit output. (`1 shl numSelectBits + 1` is 2^(s+1), which is never a
      port index below 2^s + 2 except for s = 0, where it is the output.) */
  function MuxWidths(s: nat, n: nat): seq<nat>
  {
    seq(Pow2(s) + 2, i requires 0 <= i < Pow2(s) + 2 => if i == Pow2(s) then s else n)
  }

  /** What the output should show: the selected input when the selector and
      that input are valid, otherwise all floating. */
  function MuxSelection(s: nat, n: nat, recv: Received): (r: WireValue)
    requires Fits(recv, MuxWidths(s, n))
    ensures |r| == n
  {
    var sel := recv[Pow2(s)];
    if IsValid(sel) && IsValid(recv[UValue(sel)]) then recv[UValue(sel)] else Floating(n)
  }

  /** `Multiplexer.valueChanged`. A selector event pushes the selected input,
      or all-Z when the selector or the selected input is invalid. An event
      on data input i pushes the new value when the selector is valid and
      equals i, pushes all-Z when the selector is invalid, and nothing
      otherwise. Events on the output push nothing. */
  function MuxChanged(s: nat, n: nat, recv: Received, port: nat, value: WireValue): (r: seq<Push>)
    requires s <= 30 && Fits(recv, MuxWidths(s, n)) && port < Pow2(s) + 2 && |value| == MuxWidths(s, n)[port]
    ensures |r| <= 1
    ensures forall j | 0 <= j < |r| :: r[j].port == Pow2(s) + 1 && |r[j].value| == n
  {
    var k := Pow2(s);
    if port == k then
      if !IsValid(value) || !IsValid(recv[UValue(value)]) then [Push(k + 1, Floating(n))]
      else [Push(k + 1, recv[UValue(value)])]
    else if port < k then
      if IsValid(recv[k]) then
        if UValue(recv[k]) == port then [Push(k + 1, value)] else []
      else [Push(k + 1, Floating(n))]
    else []
  }

  /** With the engine's event value (the value just received on the port):
      a selector event, and a data event that pushes a valid value, push
      the selection; a data event that pushes nothing leaves the selection
      independent of that input; output events push nothing. A selected
      input with a floating bit is passed through as it is by a data event,
      where a selector event would push all-Z. */
  lemma MuxFollowsSelection(s: nat, n: nat, recv: Received, port: nat)
    requires s <= 30 && Fits(recv, MuxWidths(s, n)) && port < Pow2(s) + 2
    ensures var k, r := Pow2(s), MuxChanged(s, n, recv, port, recv[port]);
      && (port == k ==> r == [Push(k + 1, MuxSelection(s, n, recv))])
      && (port < k && r != [] && IsValid(recv[port]) ==> r == [Push(k + 1, MuxSelection(s, n, recv))])
      && (port < k && r == [] ==>
            forall x: WireValue | |x| == n :: MuxSelection(s, n, recv[port := x]) == MuxSelection(s, n, recv))
      && (port < k && !IsValid(recv[port]) && IsValid(recv[k]) && UValue(recv[k]) == port ==>
            r == [Push(k + 1, recv[port])] && MuxSelection(s, n, recv) == Floating(n))
      && (port == k + 1 ==> r == [])
  {
    var k := Pow2(s);
    if port < k {
      forall x: WireValue | |x| == n
        ensures Fits(recv[port := x], MuxWidths(s, n))
      {
      }
    }
  }

  // ----- demultiplexer -----

  /** 2^s outputs of n bits, the s-bit selector at index 2^s, then the n-bit input. */
  function DemuxWidths(s: nat, n: nat): seq<nat>
  {
    MuxWidths(s, n)
  }

  /** What output i should show for selector `sel` and input `data`:
      all-Z with an invalid selector, the input on the selected output,
      and zero on every other one. */
  function DemuxOutput(n: nat, sel: WireValue, data: WireValue, i: nat): (r: WireValue)
    requires |data| == n
    ensures |r| == n
  {
    if !IsValid(sel) then Floating(n) else if i == UValue(sel) then data else Of(0, n)
  }

  /** `Demultiplexer.valueChanged`. A selector event pushes every output in
      order: all-Z when the selector is invalid, otherwise the last received
      input on the selected output and zero on the others. An input event
      with a valid selector pushes the new value on the selected output
      only. Any other event pushes nothing. */
  function DemuxChanged(s: nat, n: nat, recv: Received, port: nat, value: WireValue): (r: seq<Push>)
    requires s <= 30 && Fits(recv, DemuxWidths(s, n)) && port < Pow2(s) + 2 && |value| == DemuxWidths(s, n)[port]
    ensures forall j | 0 <= j < |r| :: r[j].port < Pow2(s) && |r[j].value| == n
  {
    var k := Pow2(s);
    if port == k then
      seq(k, i requires 0 <= i < k => Push(i, DemuxOutput(n, value, recv[k + 1], i)))
    else if port == k + 1 && IsValid(recv[k]) then [Push(UValue(recv[k]), value)]
    else []
  }

  /** With the engine's event value: a selector event pushes every output its
      expected value, in order; an input event pushes only the selected
      output, its expected value, and no other output's expected value
      depends on the input; every other event pushes nothing. */
  lemma DemuxFollowsSelection(s: nat, n: nat, recv: Received, port: nat)
    requires s <= 30 && Fits(recv, DemuxWidths(s, n)) && port < Pow2(s) + 2
    ensures var k, r := Pow2(s), DemuxChanged(s, n, recv, port, recv[port]);
      && (port == k ==> |r| == k && forall i | 0 <= i < k :: r[i] == Push(i, DemuxOutput(n, recv[k], recv[k + 1], i)))
      && (port == k + 1 && IsValid(recv[k]) ==>
            && |r| == 1 && r[0] == Push(UValue(recv[k]), DemuxOutput(n, recv[k], recv[k + 1], UValue(recv[k])))
            && forall i, x: WireValue | 0 <= i < k && i != UValue(recv[k]) && |x| == n ::
                 DemuxOutput(n, recv[k], x, i) == DemuxOutput(n, recv[k], recv[k + 1], i))
      && (port < k || (port == k + 1 && !IsValid(recv[k])) ==> r == [])
  {
  }

  // ----- decoder -----

  /** 2^s one-bit outputs, then the s-bit selector. */
  function DecoderWidths(s: nat): seq<nat>
  {
    seq(Pow2(s) + 1, i requires 0 <= i < Pow2(s) + 1 => if i == Pow2(s) then s else 1)
  }

  /** `Decoder.valueChanged`: only selector events count. An invalid selector
      floats every output; a valid one sets output `value` to `of(1, 1)` and
      every other output to `of(0, 1)`. */
  function DecoderChanged(s: nat, port: nat, value: WireValue): (r: seq<Push>)
    requires s <= 30 && port < Pow2(s) + 1 && |value| == DecoderWidths(s)[port]
    ensures port != Pow2(s) ==> r == []
    ensures port == Pow2(s) ==> |r| == Pow2(s) && forall i | 0 <= i < |r| :: r[i].port == i
    ensures port == Pow2(s) && !IsValid(value) ==> forall i | 0 <= i < |r| :: r[i].value == Floating(1)
    ensures port == Pow2(s) && IsValid(value) ==>
      forall i | 0 <= i < |r| :: (r[i].value == [ONE] <==> i == UValue(value)) && (r[i].value == [ONE] || r[i].value == [ZERO])
  {
    var k := Pow2(s);
    OfSmall(1);
    assert Of(0, 1) == [ZERO] by { assert Filled(1, ZERO)[0] == ZERO; }
    if port != k then []
    else if !IsValid(value) then seq(k, i requires 0 <= i < k => Push(i, Floating(1)))
    else seq(k, i requires 0 <= i < k => Push(i, if i == UValue(value) then Of(1, 1) else Of(0, 1)))
  }

  // ----- priority encoder -----

  /** 2^s one-bit inputs, then enable-in, enable-out and group (one bit
      each), then the s-bit output. */
  function EncoderWidths(s: nat): seq<nat>
  {
    seq(Pow2(s) + 4, i requires 0 <= i < Pow2(s) + 4 => if i == Pow2(s) + 3 then s else 1)
  }

  /** Input i counts as set when its last received bit is ONE, or when it is
      the port of the current event and the new bit is ONE. */
  predicate Active(recv: Received, port: nat, value: WireValue, i: nat)
    requires i < |recv| && |recv[i]| == 1 && (i == port ==> |value| == 1)
  {
    recv[i][0] == ONE || (i == port && value[0] == ONE)
  }

  /** The loop over the inputs: the highest set input below `count`, or -1. */
  function HighestActive(recv: Received, port: nat, value: WireValue, count: nat): (h: int)
    requires count <= |recv| && (forall i | 0 <= i < count :: |recv[i]| == 1) && (port < count ==> |value| == 1)
    ensures -1 <= h < count
    ensures h >= 0 ==> Active(recv, port, value, h)
    ensures forall i | h < i < count :: !Active(recv, port, value, i)
  {
    if count == 0 then -1
    else if Active(recv, port, value, count - 1) then count - 1
    else HighestActive(recv, port, value, count - 1)
  }

  /** `PriorityEncoder.valueChanged`, with the component's `isEnabled` field
      passed in and returned. An enable-in event sets the field to whether
      its bit is ONE. Disabled: enable-out 0, output Z, group 0. Enabled
      with no input set: enable-out 1, output Z, group 0. Otherwise:
      enable-out 0, group 1, and the output is the highest set input. */
  function EncoderChanged(s: nat, enabled: bool, recv: Received, port: nat, value: WireValue): (r: (bool, seq<Push>))
    requires s <= 30 && Fits(recv, EncoderWidths(s)) && port < Pow2(s) + 4 && |value| == EncoderWidths(s)[port]
    ensures r.0 == (if port == Pow2(s) then value[0] == ONE else enabled)
    ensures |r.1| == 3
  {
    var k := Pow2(s);
    var en := if port == k then value[0] == ONE else enabled;
    if !en then (en, [Push(k + 1, [ZERO]), Push(k + 3, Floating(s)), Push(k + 2, [ZERO])])
    else
      var h := HighestActive(recv, port, value, k);
      if h == -1 then (en, [Push(k + 1, [ONE]), Push(k + 3, Floating(s)), Push(k + 2, [ZERO])])
      else (en, [Push(k + 1, [ZERO]), Push(k + 2, [ONE]), Push(k + 3, Of(h, s))])
  }

  /** When enabled, the encoder reports on the group port whether some input
      is set, and then outputs the index of the highest set input. */
  lemma EncoderOutputsHighest(s: nat, enabled: bool, recv: Received, port: nat, value: WireValue)
    requires s <= 30 && Fits(recv, EncoderWidths(s)) && port < Pow2(s) + 4 && |value| == EncoderWidths(s)[port]
    ensures var k, r := Pow2(s), EncoderChanged(s, enabled, recv, port, value);
      && (!r.0 ==> r.1 == [Push(k + 1, [ZERO]), Push(k + 3, Floating(s)), Push(k + 2, [ZERO])])
      && (r.0 && (forall i | 0 <= i < k :: !Active(recv, port, value, i)) ==>
            r.1 == [Push(k + 1, [ONE]), Push(k + 3, Floating(s)), Push(k + 2, [ZERO])])
      && (r.0 && (exists i | 0 <= i < k :: Active(recv, port, value, i)) ==>
            && r.1[0] == Push(k + 1, [ZERO]) && r.1[1] == Push(k + 2, [ONE])
            && r.1[2].port == k + 3 && |r.1[2].value| == s
            && var h := UValue(r.1[2].value);
               h < k && Active(recv, port, value, h)
               && forall i | h < i < k :: !Active(recv, port, value, i))
  {
    var k := Pow2(s);
    var r := EncoderChanged(s, enabled, recv, port, value);
    var h := HighestActive(recv, port, value, k);
    if r.0 && h >= 0 {
      OfUValue(h, s);
      ModSmall(h, s);
    }
  }

  /** Decoding a selector and priority-encoding the decoder's outputs gives
      the selector back: the one-hot output is at the selector's index. */
  lemma DecodeThenEncode(s: nat, sel: WireValue, recv: Received)
    requires 1 <= s <= 30 && |sel| == s && IsValid(sel)
    requires Fits(recv, EncoderWidths(s)) && recv[Pow2(s)] == [ONE]
    requires var d := DecoderChanged(s, Pow2(s), sel);
      forall i | 0 <= i < Pow2(s) :: recv[i] == d[i].value
    ensures EncoderChanged(s, false, recv, Pow2(s), [ONE]).1[2] == Push(Pow2(s) + 3, sel)
  {
    var k := Pow2(s);
    var u := UValue(sel);
    var h := HighestActive(recv, k, [ONE], k);
    assert Active(recv, k, [ONE], u);
    assert h == u;
    OfUValueRoundTrip(sel);
  }
}
