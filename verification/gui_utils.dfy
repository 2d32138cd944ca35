/** Rotating a component's ports and size between the four facings
    (GuiUtils.kt). Offsets are relative to the component's top-left corner,
    in grid units; the component's width and height stay those it had when
    the rotation started. */
module GuiUtil {

  /** The facings, in the order the rotation walks them (`EAST, NORTH, WEST, SOUTH`). */
  datatype Direction = East | North | West | South

  function Index(d: Direction): (i: nat)
    ensures i < 4
  {
    match d
    case East => 0
    case North => 1
    case West => 2
    case South => 3
  }

  function Order(i: nat): (d: Direction)
    ensures Index(d) == i % 4
  {
    match i % 4
    case 0 => East
    case 1 => North
    case 2 => West
    case _ => South
  }

  /** How many quarter turns the rotation loop makes: it starts at the
      source's place in the order and stops at the first place holding the
      destination. */
  function Steps(source: Direction, destination: Direction): (k: nat)
    ensures k < 4
    ensures After(source, k) == destination
    ensures forall j | 0 <= j < k :: After(source, j) != destination
  {
    var s, d := Index(source), Index(destination);
    var k := if s <= d then d - s else d + 4 - s;
    forall j | 0 <= j < k
      ensures After(source, j) != destination
    {
      assert Index(After(source, j)) == (s + j) % 4;
      assert s + j < 4 ==> (s + j) % 4 == s + j;
      assert s + j >= 4 ==> (s + j) % 4 == s + j - 4;
    }
    assert s + k < 4 ==> (s + k) % 4 == s + k;
    assert s + k >= 4 ==> (s + k) % 4 == s + k - 4;
    k
  }

  /** The facing `j` places after `d` in the order. */
  function After(d: Direction, j: nat): Direction
  {
    Order(Index(d) + j)
  }

  /** Quarter turns add up modulo a full turn. */
  lemma StepsAdd(a: Direction, b: Direction, c: Direction)
    ensures Steps(a, c) == (Steps(a, b) + Steps(b, c)) % 4
  {
    var i, j := Steps(a, b), Steps(b, c);
    assert i + j < 4 ==> (i + j) % 4 == i + j;
    assert i + j >= 4 ==> (i + j) % 4 == i + j - 4;
  }

  /** A port of a component, at an offset from its corner. */
  datatype PortAt = PortAt(port: nat, name: string, x: int, y: int)

  /** `rotatePortCCW`: one quarter turn; `extent` is the width or the height
      of the component. */
  function RotateCCW(p: PortAt, extent: int): (q: PortAt)
    ensures q.port == p.port && q.name == p.name
    ensures q.x == p.y && q.y == extent - p.x
  {
    PortAt(p.port, p.name, p.y, extent - p.x)
  }

  /** `k` quarter turns, the first measured against the width when
      `useWidth` holds and against the height otherwise, alternating after. */
  function Rotated(p: PortAt, width: int, height: int, k: nat, useWidth: bool): PortAt
    decreases k
  {
    if k == 0 then p
    else Rotated(RotateCCW(p, if useWidth then width else height), width, height, k - 1, !useWidth)
  }

  /** A quarter-turn rotation by `j` turns about a `width` by `height` box,
      written out: the reference the rotation loop is measured against. */
  function Quarter(p: PortAt, width: int, height: int, j: nat): (q: PortAt)
    requires j < 4
    ensures q.port == p.port && q.name == p.name
  {
    if j == 0 then p
    else if j == 1 then PortAt(p.port, p.name, p.y, width - p.x)
    else if j == 2 then PortAt(p.port, p.name, width - p.x, height - p.y)
    else PortAt(p.port, p.name, height - p.y, p.x)
  }

  /** One more turn before a `j`-turn rotation of the turned (swapped) box is
      a `j + 1`-turn rotation of the original box. */
  lemma QuarterStep(p: PortAt, w: int, h: int, j: nat)
    requires j < 4
    ensures Quarter(RotateCCW(p, w), h, w, j) == Quarter(p, w, h, (j + 1) % 4)
  {
  }

  /** The alternating loop is the rotation written out. */
  lemma {:induction false} RotatedQuarter(p: PortAt, w: int, h: int, k: nat, useWidth: bool)
    ensures Rotated(p, w, h, k, useWidth) ==
      (if useWidth then Quarter(p, w, h, k % 4) else Quarter(p, h, w, k % 4))
    decreases k
  {
    if k > 0 {
      var e := if useWidth then w else h;
      var q := RotateCCW(p, e);
      RotatedQuarter(q, w, h, k - 1, !useWidth);
      if useWidth {
        QuarterStep(p, w, h, (k - 1) % 4);
      } else {
        QuarterStep(p, h, w, (k - 1) % 4);
      }
      assert ((k - 1) % 4 + 1) % 4 == k % 4;
    }
  }

  /** `rotatePorts`: every port turned from the source facing to the
      destination facing, in the same order, with the component's size as it
      was before the turn. */
  function RotatePorts(ports: seq<PortAt>, width: int, height: int, source: Direction, destination: Direction): (r: seq<PortAt>)
    ensures |r| == |ports|
    ensures forall i | 0 <= i < |ports| :: r[i] == Quarter(ports[i], width, height, Steps(source, destination))
  {
    var k := Steps(source, destination);
    var r := seq(|ports|, i requires 0 <= i < |ports| => Rotated(ports[i], width, height, k, true));
    assert forall i | 0 <= i < |ports| :: r[i] == Quarter(ports[i], width, height, k) by {
      forall i | 0 <= i < |ports| {
        RotatedQuarter(ports[i], width, height, k, true);
      }
    }
    r
  }

  /** A component's size. */
  datatype Size = Size(width: int, height: int)

  /** Swapping width and height `k` times. */
  function Swapped(s: Size, k: nat): Size
    decreases k
  {
    if k == 0 then s else Swapped(Size(s.height, s.width), k - 1)
  }

  /** `rotateElementSize`: the size after turning from the source facing to
      the destination facing. */
  function RotateElementSize(s: Size, source: Direction, destination: Direction): (r: Size)
    ensures Steps(source, destination) % 2 == 0 ==> r == s
    ensures Steps(source, destination) % 2 == 1 ==> r == Size(s.height, s.width)
  {
    var k := Steps(source, destination);
    SwappedParity(s, k);
    Swapped(s, k)
  }

  lemma {:induction false} SwappedParity(s: Size, k: nat)
    ensures Swapped(s, k) == if k % 2 == 0 then s else Size(s.height, s.width)
    decreases k
  {
    if k > 0 {
      SwappedParity(Size(s.height, s.width), k - 1);
    }
  }

  /** The port lies on or inside the component's box. */
  predicate InBox(p: PortAt, s: Size)
  {
    0 <= p.x <= s.width && 0 <= p.y <= s.height
  }

  /** Turning to the same facing changes nothing. */
  lemma RotateSame(ports: seq<PortAt>, s: Size, d: Direction)
    ensures RotatePorts(ports, s.width, s.height, d, d) == ports
    ensures RotateElementSize(s, d, d) == s
  {
    assert Steps(d, d) == 0;
    var r := RotatePorts(ports, s.width, s.height, d, d);
    assert forall i | 0 <= i < |ports| :: r[i] == ports[i];
  }

  /** A port on the component stays on the turned component. */
  lemma RotateKeepsInBox(ports: seq<PortAt>, s: Size, source: Direction, destination: Direction)
    requires forall i | 0 <= i < |ports| :: InBox(ports[i], s)
    ensures var r := RotatePorts(ports, s.width, s.height, source, destination);
      forall i | 0 <= i < |r| :: InBox(r[i], RotateElementSize(s, source, destination))
  {
  }

  /** Turning in two goes, the second with the size the first produced,
      is turning in one go. */
  lemma RotateCompose(ports: seq<PortAt>, s: Size, a: Direction, b: Direction, c: Direction)
    ensures var t := RotateElementSize(s, a, b);
      RotatePorts(RotatePorts(ports, s.width, s.height, a, b), t.width, t.height, b, c)
        == RotatePorts(ports, s.width, s.height, a, c)
    ensures RotateElementSize(RotateElementSize(s, a, b), b, c) == RotateElementSize(s, a, c)
  {
    var i := Steps(a, b);
    var j := Steps(b, c);
    StepsAdd(a, b, c);
    var t := RotateElementSize(s, a, b);
    var r1 := RotatePorts(ports, s.width, s.height, a, b);
    var r2 := RotatePorts(r1, t.width, t.height, b, c);
    var r := RotatePorts(ports, s.width, s.height, a, c);
    forall n | 0 <= n < |ports|
      ensures r2[n] == r[n]
    {
      QuarterCompose(ports[n], s.width, s.height, i, j);
    }
  }

  lemma QuarterCompose(p: PortAt, w: int, h: int, i: nat, j: nat)
    requires i < 4 && j < 4
    ensures (if i % 2 == 0 then Quarter(Quarter(p, w, h, i), w, h, j) else Quarter(Quarter(p, w, h, i), h, w, j))
      == Quarter(p, w, h, (i + j) % 4)
  {
  }

  /** Four quarter turns bring every port back. */
  lemma FullTurn(p: PortAt, w: int, h: int)
    ensures Rotated(p, w, h, 4, true) == p
  {
    RotatedQuarter(p, w, h, 4, true);
  }
}
