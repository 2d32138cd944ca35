/** How a memory maps the addresses on its address port to the words it
    stores (Addressability.kt): a data width of 16 or 32 bits can be byte-
    or half-word-addressed, in which case several consecutive addresses
    share one stored word. */
module Addressing {
  import opened BitMath

  /** `Addressability`. */
  datatype Addressability = Byte | HalfWord | Word

  /** `Addressability.condition`: which data widths offer each mode. */
  predicate Offered(a: Addressability, width: int)
  {
    match a
    case Byte => width % 16 == 0
    case HalfWord => width == 32
    case Word => true
  }

  /** `Addressability.entries.filter { it.condition(width) }`, in declaration order. */
  function Choices(width: int): (r: seq<Addressability>)
    ensures forall a :: a in r <==> Offered(a, width)
    ensures Word in r && r[|r| - 1] == Word
    ensures forall i, j | 0 <= i < j < |r| :: Rank(r[i]) < Rank(r[j])
  {
    (if width % 16 == 0 then [Byte] else []) + (if width == 32 then [HalfWord] else []) + [Word]
  }

  /** Declaration position of a mode. */
  function Rank(a: Addressability): nat
  {
    match a
    case Byte => 0
    case HalfWord => 1
    case Word => 2
  }

  /** The `ADDRESSABILITY` property table: entry i lists the modes offered
      for data width i + 1, and every entry defaults to `Word`. */
  datatype ChoiceProperty = ChoiceProperty(choices: seq<Addressability>, default: Addressability)

  function AddressabilityTable(): (t: seq<ChoiceProperty>)
    ensures |t| == 32
    ensures forall i | 0 <= i < 32 :: t[i].default == Word && t[i].default in t[i].choices
    ensures forall i | 0 <= i < 32 :: (Byte in t[i].choices <==> i == 15 || i == 31)
    ensures forall i | 0 <= i < 32 :: (HalfWord in t[i].choices <==> i == 31)
  {
    seq(32, i requires 0 <= i < 32 => ChoiceProperty(Choices(i + 1), Word))
  }

  /** `MemoryUnit.bpw`: bytes per word. */
  function Bpw(width: int, a: Addressability): (r: nat)
    ensures r == 1 || r == 2 || r == 4
  {
    match a
    case Byte => if width == 16 then 2 else 1
    case HalfWord => 2
    case Word => 4
  }

  /** The divisor `effective` applies: how many addresses share one word. */
  function Divisor(width: int, a: Addressability): (d: nat)
    ensures d == 1 || d == 2 || d == 4
    ensures a == Word || (width != 16 && width != 32) ==> d == 1
  {
    if width == 32 then
      match a
      case Byte => 4
      case HalfWord => 2
      case Word => 1
    else if width == 16 then
      match a
      case Byte => 2
      case HalfWord => 2
      case Word => 1
    else 1
  }

  /** `MemoryUnit.effective`: the word index of an address, by Kotlin's
      truncating Int division. */
  function Effective(width: int, a: Addressability, address: int): (r: int)
    ensures address >= 0 ==> 0 <= r <= address
    ensures a == Word || (width != 16 && width != 32) ==> r == address
  {
    var d := Divisor(width, a);
    DivisorDivides(address, d);
    TruncDiv(address, d)
  }

  lemma DivisorDivides(address: int, d: int)
    requires d == 1 || d == 2 || d == 4
    ensures address >= 0 ==> 0 <= TruncDiv(address, d) <= address
    ensures d == 1 ==> TruncDiv(address, d) == address
  {
    if address >= 0 {
      assert TruncDiv(address, d) == address / d;
    }
  }

  /** For a non-negative address, exactly `Divisor` consecutive addresses
      share each word: the word index is the address rounded down to a
      multiple of the divisor, divided by it. */
  lemma EffectiveGroups(width: int, a: Addressability, address: int)
    requires address >= 0
    ensures var d, e := Divisor(width, a), Effective(width, a, address);
      e * d <= address < e * d + d
  {
    var d := Divisor(width, a);
    assert TruncDiv(address, d) == address / d;
  }

  /** For every width a memory can have and every mode offered for it, a
      word holds four bytes' worth of addresses: divisor times bytes per
      word is always 4. */
  lemma BytesPerWord(width: int, a: Addressability)
    requires 1 <= width <= 32 && Offered(a, width)
    ensures Divisor(width, a) * Bpw(width, a) == 4
  {
  }
}
