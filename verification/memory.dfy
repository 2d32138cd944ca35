/** The word memories: the ROM (ROM.kt), whose words live in the component,
    and the RAM (RAM.kt), whose words live in each circuit state as the
    component property.

    Both hold 2^netAddrBits Kotlin Ints. netAddrBits is not defined in any
    file of this model, so it is a parameter here (at most 30, so that the
    array size is a positive Int). Address-port values are at most 20 bits
    wide, so their `value` is their unsigned reading. */
module Memories {
  import opened Wrappers
  import opened BitMath
  import opened WireValues
  import opened Components
  import opened Addressing

  const MAX_ADDRESS_BITS: nat := 20

  /** A fresh `IntArray(k)`. */
  function Zeros(k: nat): (r: seq<int>)
    ensures |r| == k && forall i | 0 <= i < k :: r[i] == 0
  {
    seq(k, _ => 0)
  }

  /** A call of the memory listeners: the word index written and the data. */
  datatype Notice = Notice(address: int, data: int)

  // ----- ROM -----

  datatype Rom = Rom(addressBits: nat, dataBits: nat, mode: Addressability, memory: seq<int>)

  /** Ports address, enable, data. */
  function RomWidths(rom: Rom): seq<nat> { [rom.addressBits, 1, rom.dataBits] }

  /** The constructor: the address width must lie in 1..20. */
  function NewRom(addressBits: int, dataBits: nat, mode: Addressability, netAddrBits: nat): (r: Result<Rom>)
    requires netAddrBits <= 30
    ensures r.Success? <==> 0 < addressBits <= MAX_ADDRESS_BITS
    ensures r.Failure? ==> r.error.IllegalArgument?
    ensures r.Success? ==> (r.value.addressBits == addressBits && r.value.dataBits == dataBits
      && r.value.mode == mode && r.value.memory == Zeros(Pow2(netAddrBits)))
  {
    if addressBits > MAX_ADDRESS_BITS || addressBits <= 0 then
      Failure(IllegalArgument("Address bits cannot be more than 20 bits."))
    else Success(Rom(addressBits, dataBits, mode, Zeros(Pow2(netAddrBits))))
  }

  /** `ROM.initMemory`: copies the first min(|words|, size) words in and
      leaves the rest of the memory as it was. */
  function InitMemory(rom: Rom, words: seq<int>): (r: Rom)
    ensures |r.memory| == |rom.memory|
    ensures r.addressBits == rom.addressBits && r.dataBits == rom.dataBits && r.mode == rom.mode
    ensures forall i | 0 <= i < |r.memory| ::
      r.memory[i] == if i < |words| then words[i] else rom.memory[i]
  {
    var m := rom.memory;
    rom.(memory := seq(|m|, i requires 0 <= i < |m| => if i < |words| then words[i] else m[i]))
  }

  function RomEffective(rom: Rom, address: int): int
  {
    Effective(rom.dataBits, rom.mode, address)
  }

  /** `ROM.load`: the word at the effective address; out-of-range indexes throw. */
  function RomLoad(rom: Rom, address: int): (r: Result<int>)
    ensures r.Success? <==> 0 <= RomEffective(rom, address) < |rom.memory|
    ensures r.Failure? ==> r.error == IndexOutOfBounds
  {
    var e := RomEffective(rom, address);
    if 0 <= e < |rom.memory| then Success(rom.memory[e]) else Failure(IndexOutOfBounds)
  }

  /** `ROM.store`: writes the word at the effective address and notifies the
      listeners with that word index. */
  function RomStore(rom: Rom, address: int, value: int): (r: Result<(Rom, Notice)>)
    ensures r.Success? <==> 0 <= RomEffective(rom, address) < |rom.memory|
    ensures r.Failure? ==> r.error == IndexOutOfBounds
    ensures r.Success? ==> (r.value.1 == Notice(RomEffective(rom, address), value)
      && |r.value.0.memory| == |rom.memory|)
  {
    var e := RomEffective(rom, address);
    if 0 <= e < |rom.memory| then Success((rom.(memory := rom.memory[e := value]), Notice(e, value)))
    else Failure(IndexOutOfBounds)
  }

  /** A store is read back by every address with the same word index, and
      leaves every other word as it was. */
  lemma RomStoreThenLoad(rom: Rom, address: int, value: int, other: int)
    requires RomStore(rom, address, value).Success?
    ensures var after := RomStore(rom, address, value).value.0;
      && (RomEffective(rom, other) == RomEffective(rom, address) ==> RomLoad(after, other) == Success(value))
      && (RomEffective(rom, other) != RomEffective(rom, address) ==> RomLoad(after, other) == RomLoad(rom, other))
  {
  }

  /** `ROM.loadWireValue`: null for an address outside [0, size); otherwise
      `of` the loaded word at the data width. The effective address of an
      in-range address is in range, so the load itself never throws here. */
  function LoadWireValue(rom: Rom, address: int): (r: Option<WireValue>)
    ensures r.Some? <==> 0 <= address < |rom.memory|
    ensures r.Some? ==> RomLoad(rom, address).Success? && r.value == Of(RomLoad(rom, address).value, rom.dataBits)
  {
    if 0 <= address < |rom.memory| then Some(Of(rom.memory[RomEffective(rom, address)], rom.dataBits)) else None
  }

  /** `ROM.valueChanged`, for an event on any port: with enable not ZERO and
      a valid address the data port drives the stored word (an address past
      the end is a NullPointerException from `!!`); otherwise the data port
      floats. */
  function RomChanged(rom: Rom, recv: Received): (r: Result<seq<Push>>)
    requires Fits(recv, RomWidths(rom))
    ensures r.Failure? ==> r.error == NullPointer
    ensures r.Success? ==> |r.value| == 1 && r.value[0].port == 2 && |r.value[0].value| == rom.dataBits
    ensures !(recv[1][0] != ZERO && IsValid(recv[0])) ==> r == Success([Push(2, Floating(rom.dataBits))])
  {
    if recv[1][0] != ZERO && IsValid(recv[0]) then
      match LoadWireValue(rom, Value(recv[0]).value)
      case Some(w) => Success([Push(2, w)])
      case None => Failure(NullPointer)
    else Success([Push(2, Floating(rom.dataBits))])
  }

  /** An enabled ROM with a valid address: it fails exactly when the address
      is past the end of the memory, and otherwise drives the word at the
      effective address, read modulo 2^dataBits. */
  lemma RomReads(rom: Rom, recv: Received)
    requires rom.addressBits <= MAX_ADDRESS_BITS && rom.dataBits <= 64
    requires Fits(recv, RomWidths(rom)) && recv[1][0] != ZERO && IsValid(recv[0])
    ensures var r, a := RomChanged(rom, recv), UValue(recv[0]);
      && (r.Failure? <==> a >= |rom.memory|)
      && (r.Success? ==> UValue(r.value[0].value) == rom.memory[RomEffective(rom, a)] % Pow2(rom.dataBits))
  {
    ValueSmall(recv[0]);
    var a := UValue(recv[0]);
    if a < |rom.memory| {
      OfUValue(rom.memory[RomEffective(rom, a)], rom.dataBits);
    }
  }

  /** What is stored is what the data port then shows: after a store at
      address a, an enabled ROM addressed with a drives the stored value. */
  lemma RomStoreThenRead(rom: Rom, value: int, recv: Received)
    requires rom.addressBits <= MAX_ADDRESS_BITS
    requires Fits(recv, RomWidths(rom)) && recv[1][0] != ZERO && IsValid(recv[0])
    requires UValue(recv[0]) < |rom.memory|
    ensures var after := RomStore(rom, UValue(recv[0]), value).value.0;
      RomChanged(after, recv) == Success([Push(2, Of(value, rom.dataBits))])
  {
    ValueSmall(recv[0]);
  }

  // ----- RAM -----

  /** `size` is 2^netAddrBits. */
  datatype Ram = Ram(addressBits: nat, dataBits: nat, mode: Addressability, separate: bool, size: nat)

  /** `getPortBits`: address, enable, clock, load, clear, data, and with
      separate load and store also data-in and store. */
  function RamWidths(ram: Ram): (r: seq<nat>)
    ensures |r| == (if ram.separate then 8 else 6)
  {
    if ram.separate then [ram.addressBits, 1, 1, 1, 1, ram.dataBits, ram.dataBits, 1]
    else [ram.addressBits, 1, 1, 1, 1, ram.dataBits]
  }

  /** The constructor: the address width must lie in 1..20. */
  function NewRam(addressBits: int, dataBits: nat, mode: Addressability, separate: bool, netAddrBits: nat): (r: Result<Ram>)
    requires netAddrBits <= 30
    ensures r.Success? <==> 0 < addressBits <= MAX_ADDRESS_BITS
    ensures r.Failure? ==> r.error.IllegalArgument?
    ensures r.Success? ==> |RamWidths(r.value)| == (if separate then 8 else 6) && r.value.size == Pow2(netAddrBits)
  {
    if addressBits > MAX_ADDRESS_BITS || addressBits <= 0 then
      Failure(IllegalArgument("Address bits cannot be more than 20 bits."))
    else Success(Ram(addressBits, dataBits, mode, separate, Pow2(netAddrBits)))
  }

  /** `getMemoryContents`: the array in the circuit state, or a fresh zero
      array when the state has none. */
  function Contents(ram: Ram, property: Option<seq<int>>): (r: seq<int>)
    ensures property.None? ==> r == Zeros(ram.size)
    ensures property.Some? ==> r == property.value
  {
    if property.Some? then property.value else Zeros(ram.size)
  }

  /** `RAM.init`: the memory of the state before a reset, cut or zero-padded
      to the size, or else the words of the source file (given here already
      read, one per address, missing ones 0), or else no memory at all. */
  function RamInit(ram: Ram, last: Option<seq<int>>, file: Option<seq<int>>): (r: Option<seq<int>>)
    ensures r.None? <==> last.None? && file.None?
    ensures r.Some? ==> |r.value| == ram.size
    ensures last.Some? ==> forall i | 0 <= i < ram.size ::
      r.value[i] == if i < |last.value| then last.value[i] else 0
    ensures last.None? && file.Some? ==> forall i | 0 <= i < ram.size ::
      r.value[i] == if i < |file.value| then file.value[i] else 0
  {
    var k := ram.size;
    if last.Some? then Some(seq(k, i requires 0 <= i < k => if i < |last.value| then last.value[i] else 0))
    else if file.Some? then Some(seq(k, i requires 0 <= i < k => if i < |file.value| then file.value[i] else 0))
    else None
  }

  /** A reset keeps a state's memory: re-initialising from a memory of the
      right size gives it back, and a state without one reads as zeros. */
  lemma RamInitKeeps(ram: Ram, m: seq<int>, file: Option<seq<int>>)
    requires |m| == ram.size
    ensures RamInit(ram, Some(m), file) == Some(m)
    ensures Contents(ram, RamInit(ram, None, None)) == Zeros(ram.size)
  {
    assert RamInit(ram, Some(m), file).value == m;
  }

  function RamEffective(ram: Ram, address: int): int
  {
    Effective(ram.dataBits, ram.mode, address)
  }

  /** `RAM.load`: the word at the effective address of this state's memory. */
  function RamLoad(ram: Ram, property: Option<seq<int>>, address: int): (r: Result<int>)
    ensures r.Success? <==> 0 <= RamEffective(ram, address) < |Contents(ram, property)|
    ensures r.Failure? ==> r.error == IndexOutOfBounds
  {
    var m, e := Contents(ram, property), RamEffective(ram, address);
    if 0 <= e < |m| then Success(m[e]) else Failure(IndexOutOfBounds)
  }

  /** What a RAM event leaves behind: the memory property of the state, the
      values pushed and the listener calls, in order. */
  datatype RamStep = RamStep(property: Option<seq<int>>, pushes: seq<Push>, notices: seq<Notice>)

  /** `RAM.store`: writes the word at the effective address into this
      state's memory and stores the array; if enable and load are not ZERO
      and the address port shows exactly this address, the data port drives
      the new word; then the listeners hear the word index and the data. */
  function RamStore(ram: Ram, property: Option<seq<int>>, recv: Received, address: int, data: int): (r: Result<RamStep>)
    requires Fits(recv, RamWidths(ram))
    ensures r.Success? <==> 0 <= RamEffective(ram, address) < |Contents(ram, property)|
    ensures r.Failure? ==> r.error == IndexOutOfBounds
    ensures r.Success? ==> (r.value.property.Some? && |r.value.property.value| == |Contents(ram, property)|
      && r.value.notices == [Notice(RamEffective(ram, address), data)]
      && |r.value.pushes| <= 1
      && (r.value.pushes != [] <==>
            recv[1][0] != ZERO && recv[3][0] != ZERO && IsValid(recv[0]) && Value(recv[0]).value == address)
      && (r.value.pushes != [] ==> r.value.pushes[0] == Push(5, Of(data, ram.dataBits))))
  {
    var m, e := Contents(ram, property), RamEffective(ram, address);
    if !(0 <= e < |m|) then Failure(IndexOutOfBounds)
    else
      var shows := recv[1][0] != ZERO && recv[3][0] != ZERO && IsValid(recv[0]) && Value(recv[0]).value == address;
      Success(RamStep(Some(m[e := data]), if shows then [Push(5, Of(data, ram.dataBits))] else [], [Notice(e, data)]))
  }

  /** In one circuit state a store is read back through `effective` by every
      address with the same word index, and no other word changes. */
  lemma RamStoreThenLoad(ram: Ram, property: Option<seq<int>>, recv: Received, address: int, data: int, other: int)
    requires Fits(recv, RamWidths(ram)) && RamStore(ram, property, recv, address, data).Success?
    ensures var after := RamStore(ram, property, recv, address, data).value.property;
      && (RamEffective(ram, other) == RamEffective(ram, address) ==> RamLoad(ram, after, other) == Success(data))
      && (RamEffective(ram, other) != RamEffective(ram, address) ==> RamLoad(ram, after, other) == RamLoad(ram, property, other))
  {
  }

  /** The clear loop as written: `store(i, 0)` for every i below the memory
      size, each through `effective`, with the state's memory read afresh
      for each store. */
  function ClearAsWritten(ram: Ram, property: Option<seq<int>>, recv: Received, n: nat): (r: RamStep)
    requires Fits(recv, RamWidths(ram)) && n <= |Contents(ram, property)|
    ensures r.property.Some? || (n == 0 && r.property == property)
    ensures |Contents(ram, r.property)| == |Contents(ram, property)|
    ensures forall k | 0 <= k < |r.notices| :: r.notices[k] == Notice(RamEffective(ram, k), 0)
    ensures |r.notices| == n
    decreases n
  {
    if n == 0 then RamStep(property, [], [])
    else
      var before := ClearAsWritten(ram, property, recv, n - 1);
      assert 0 <= RamEffective(ram, n - 1) < |Contents(ram, before.property)|;
      var step := RamStore(ram, before.property, recv, n - 1, 0).value;
      RamStep(step.property, before.pushes + step.pushes, before.notices + step.notices)
  }

  /** Word j is the effective address of some address below n. */
  predicate Reached(ram: Ram, n: nat, j: int)
  {
    exists i | 0 <= i < n :: RamEffective(ram, i) == j
  }

  /** The words the as-written clear zeroes are those at index
      `effective(i)` for some i below n; every other word is kept. */
  lemma {:induction false} ClearAsWrittenCells(ram: Ram, property: Option<seq<int>>, recv: Received, n: nat)
    requires Fits(recv, RamWidths(ram)) && n <= |Contents(ram, property)|
    ensures var after := Contents(ram, ClearAsWritten(ram, property, recv, n).property);
      forall j | 0 <= j < |after| ::
        after[j] == if Reached(ram, n, j) then 0 else Contents(ram, property)[j]
  {
    if n > 0 {
      ClearAsWrittenCells(ram, property, recv, n - 1);
      var before := ClearAsWritten(ram, property, recv, n - 1);
      var after := Contents(ram, ClearAsWritten(ram, property, recv, n).property);
      var e := RamEffective(ram, n - 1);
      assert after == Contents(ram, before.property)[e := 0];
      forall j | 0 <= j < |after|
        ensures after[j] == if Reached(ram, n, j) then 0 else Contents(ram, property)[j]
      {
        if j == e {
          assert RamEffective(ram, n - 1) == j;
        } else if Reached(ram, n, j) {
          var i :| 0 <= i < n && RamEffective(ram, i) == j;
          assert i < n - 1;
        }
      }
    }
  }

  /** With byte or half-word addressing of a 16- or 32-bit RAM of at least
      two words, the as-written clear never reaches the last word: every
      index it writes is at most (size - 1) / 2. */
  lemma ClearMissesLastWord(ram: Ram, property: Option<seq<int>>, recv: Received)
    requires Fits(recv, RamWidths(ram)) && Divisor(ram.dataBits, ram.mode) >= 2
    requires |Contents(ram, property)| >= 2
    ensures var m := Contents(ram, property);
      var after := Contents(ram, ClearAsWritten(ram, property, recv, |m|).property);
      after[|m| - 1] == m[|m| - 1]
  {
    var m := Contents(ram, property);
    ClearAsWrittenCells(ram, property, recv, |m|);
    forall i | 0 <= i < |m|
      ensures RamEffective(ram, i) != |m| - 1
    {
      EffectiveBelowLast(ram, i, |m|);
    }
    assert !Reached(ram, |m|, |m| - 1);
  }

  /** With a divisor of at least 2, an address below the size maps below
      the last index. */
  lemma EffectiveBelowLast(ram: Ram, i: nat, size: nat)
    requires Divisor(ram.dataBits, ram.mode) >= 2 && i < size && size >= 2
    ensures RamEffective(ram, i) < size - 1
  {
    var d := Divisor(ram.dataBits, ram.mode);
    EffectiveGroups(ram.dataBits, ram.mode, i);
    var e := RamEffective(ram, i);
    MulMono(2, d, e);
    assert 2 * e <= i;
  }


  /** A concrete case: a 32-bit byte-addressed RAM of four words holding
      1, 2, 3, 4 keeps 2, 3 and 4 after a clear. */
  lemma ClearAsWrittenExample(recv: Received)
    requires Fits(recv, RamWidths(Ram(2, 32, Byte, false, 4)))
    ensures var ram := Ram(2, 32, Byte, false, 4);
      Contents(ram, ClearAsWritten(ram, Some([1, 2, 3, 4]), recv, 4).property) == [0, 2, 3, 4]
  {
    var ram := Ram(2, 32, Byte, false, 4);
    var p := Some([1, 2, 3, 4]);
    assert RamEffective(ram, 0) == 0 && RamEffective(ram, 1) == 0;
    assert RamEffective(ram, 2) == 0 && RamEffective(ram, 3) == 0;
    var after := Contents(ram, ClearAsWritten(ram, p, recv, 4).property);
    ClearAsWrittenCells(ram, p, recv, 4);
    assert after[0] == 0;
    forall j | 1 <= j < 4
      ensures after[j] == [1, 2, 3, 4][j]
    {
      assert !Reached(ram, 4, j);
    }
  }

  /** The clear the RAM evidently intends: every word of this state's
      memory becomes zero (each word index written once, with the listeners
      told each index). */
  function ClearEveryWord(ram: Ram, property: Option<seq<int>>): (r: RamStep)
    ensures r.property.Some? && |r.property.value| == |Contents(ram, property)|
    ensures forall j | 0 <= j < |r.property.value| :: r.property.value[j] == 0
    ensures |r.notices| == |Contents(ram, property)|
    ensures forall k | 0 <= k < |r.notices| :: r.notices[k] == Notice(k, 0)
  {
    var n := |Contents(ram, property)|;
    RamStep(Some(Zeros(n)), [], seq(n, k requires 0 <= k < n => Notice(k, 0)))
  }

  /** For word addressing, or any data width other than 16 and 32, the two
      clears zero the same words: all of them. */
  lemma ClearsAgreeOnWords(ram: Ram, property: Option<seq<int>>, recv: Received)
    requires Fits(recv, RamWidths(ram)) && Divisor(ram.dataBits, ram.mode) == 1
    ensures var m := Contents(ram, property);
      Contents(ram, ClearAsWritten(ram, property, recv, |m|).property) == ClearEveryWord(ram, property).property.value
  {
    var m := Contents(ram, property);
    ClearAsWrittenCells(ram, property, recv, |m|);
    var after := Contents(ram, ClearAsWritten(ram, property, recv, |m|).property);
    forall j | 0 <= j < |m|
      ensures after[j] == 0
    {
      DivisorDivides(j, Divisor(ram.dataBits, ram.mode));
      assert RamEffective(ram, j) == j;
      assert Reached(ram, |m|, j);
    }
    assert after == Zeros(|m|);
  }

  /** `RAM.valueChanged` (clear as written). Enable and load are "not ZERO"
      and "ONE" here, against "not ZERO" twice in `store`; without separate
      ports, store-mode is "not load".
      - enable or load event: the data port floats unless enabled and
        loading; enabled, loading and with a valid address it then drives
        the stored word;
      - address event: enabled, loading and a valid address drive the word;
      - clock event with bit ONE in store-mode and a valid address: the data
        is stored, or all ones of the data width when the data is invalid;
      - clear event with clear at ONE: the clear loop;
      - anything else: nothing. */
  function RamChanged(ram: Ram, property: Option<seq<int>>, recv: Received, port: nat, value: WireValue): (r: Result<RamStep>)
    requires Fits(recv, RamWidths(ram)) && port < |RamWidths(ram)| && |value| == RamWidths(ram)[port]
    ensures r.Failure? ==> r.error == IndexOutOfBounds
    ensures r.Success? && r.value.property != property ==> port == 2 || port == 4
    ensures port >= 5 ==> r == Success(RamStep(property, [], []))
  {
    var enabled := recv[1][0] != ZERO;
    var clear := recv[4][0] == ONE;
    var load := recv[3][0] == ONE;
    var store := if ram.separate then recv[7][0] == ONE else !load;
    var address := recv[0];
    var dataPort := if ram.separate then 6 else 5;
    if port == 1 || port == 3 then
      var off := if !enabled || !load then [Push(5, Floating(ram.dataBits))] else [];
      if enabled && load && IsValid(address) then
        match RamLoad(ram, property, Value(address).value)
        case Success(w) => Success(RamStep(property, off + [Push(5, Of(w, ram.dataBits))], []))
        case Failure(e) => Failure(e)
      else Success(RamStep(property, off, []))
    else if port == 0 then
      if enabled && load && IsValid(address) then
        match RamLoad(ram, property, Value(address).value)
        case Success(w) => Success(RamStep(property, [Push(5, Of(w, ram.dataBits))], []))
        case Failure(e) => Failure(e)
      else Success(RamStep(property, [], []))
    else if port == 2 then
      if store && value[0] == ONE && IsValid(address) then
        var data := recv[dataPort];
        var word := if IsValid(data) then Value(data).value else Value(Of(-1, ram.dataBits)).value;
        RamStore(ram, property, recv, Value(address).value, word)
      else Success(RamStep(property, [], []))
    else if port == 4 then
      if clear then Success(ClearAsWritten(ram, property, recv, |Contents(ram, property)|))
      else Success(RamStep(property, [], []))
    else Success(RamStep(property, [], []))
  }

  /** A clocked store followed by a load from the same address in the same
      state: an enabled, loading RAM then drives the word that was written,
      read modulo 2^dataBits; a valid data value is read back unchanged for
      data widths up to 32. */
  lemma RamWriteThenRead(ram: Ram, property: Option<seq<int>>, recv: Received, value: WireValue, recv2: Received)
    requires ram.addressBits <= MAX_ADDRESS_BITS && 1 <= ram.dataBits <= 32 && !ram.separate
    requires Fits(recv, RamWidths(ram)) && value == [ONE] && IsValid(recv[0]) && recv[3][0] != ONE
    requires RamChanged(ram, property, recv, 2, value).Success?
    requires Fits(recv2, RamWidths(ram)) && recv2[0] == recv[0] && recv2[1][0] != ZERO && recv2[3][0] == ONE
    requires IsValid(recv[5])
    ensures var after := RamChanged(ram, property, recv, 2, value).value.property;
      RamChanged(ram, after, recv2, 0, recv2[0]) == Success(RamStep(after, [Push(5, recv[5])], []))
  {
    ValueSmall(recv[0]);
    var a := UValue(recv[0]);
    var after := RamChanged(ram, property, recv, 2, value).value.property;
    var w := Value(recv[5]).value;
    assert RamLoad(ram, after, a) == Success(w);
    ValueMod32(recv[5]);
    OfCongruent(w, UValue(recv[5]), ram.dataBits);
    OfUValueRoundTrip(recv[5]);
  }
}
