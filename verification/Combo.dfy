/** Which fields of a key are set, and the combo number the agent gives that choice. */
module Combo {
  import opened Rules

  datatype Shape = Shape(src: bool, dst: bool, sport: bool, dport: bool, proto: bool)

  const COMBO_UNKNOWN: int := -1
  const COMBO_BITMAP_SIZE: int := 64
  const COMBO_MAX: nat := 34

  function ShapeOf(k: Key): Shape {
    Shape(k.src != 0, k.dst != 0, k.sport != 0, k.dport != 0, k.proto != 0)
  }

  /** The agent's switch, case by case in its order. */
  function ComboOf(s: Shape): int {
    match s
    case Shape(true, true, true, true, true) => 0
    case Shape(false, true, true, true, true) => 1
    case Shape(false, true, false, true, true) => 2
    case Shape(false, true, false, false, true) => 3
    case Shape(false, true, false, false, false) => 4
    case Shape(false, false, false, false, true) => 5
    case Shape(false, false, true, false, false) => 6
    case Shape(false, false, false, true, false) => 7
    case Shape(true, false, false, false, false) => 8
    case Shape(true, false, false, false, true) => 9
    case Shape(true, true, false, false, false) => 10
    case Shape(true, false, false, true, false) => 11
    case Shape(false, true, false, true, false) => 12
    case Shape(true, true, false, false, true) => 13
    case Shape(true, false, false, true, true) => 14
    case Shape(false, false, true, false, true) => 15
    case Shape(false, false, false, true, true) => 16
    case Shape(true, false, true, false, false) => 17
    case Shape(true, false, true, false, true) => 18
    // The case for 20 repeats the fields of 2, and the case for 32 those of 1:
    // neither is ever reached.
    case Shape(true, true, false, true, false) => 21
    case Shape(true, true, false, true, true) => 22
    case Shape(true, false, true, true, false) => 23
    case Shape(true, false, true, true, true) => 24
    case Shape(false, true, true, false, false) => 25
    case Shape(false, true, true, false, true) => 26
    case Shape(false, false, true, true, false) => 27
    case Shape(false, false, true, true, true) => 28
    case Shape(true, true, true, false, false) => 29
    case Shape(true, true, true, false, true) => 30
    case Shape(false, true, true, true, false) => 31
    case Shape(true, true, true, true, false) => 33
    case _ => COMBO_UNKNOWN
  }

  function ComboType(k: Key): int {
    ComboOf(ShapeOf(k))
  }

  predicate ValidCombo(c: int) {
    c != COMBO_UNKNOWN && 0 <= c < COMBO_BITMAP_SIZE
  }

  /** The fields that the data plane copies from the packet for combo bit b,
      as its unrolled lookups write them. Bit 19 has no probe. */
  function ProbeShape(b: nat): Option<Shape> {
    match b
    case 0 => Some(Shape(true, true, true, true, true))
    case 1 => Some(Shape(false, true, true, true, true))
    case 2 => Some(Shape(false, true, false, true, true))
    case 3 => Some(Shape(false, true, false, false, true))
    case 4 => Some(Shape(false, true, false, false, false))
    case 5 => Some(Shape(false, false, false, false, true))
    case 6 => Some(Shape(false, false, true, false, false))
    case 7 => Some(Shape(false, false, false, true, false))
    case 8 => Some(Shape(true, false, false, false, false))
    case 9 => Some(Shape(true, false, false, false, true))
    case 10 => Some(Shape(true, true, false, false, false))
    case 11 => Some(Shape(true, false, false, true, false))
    case 12 => Some(Shape(false, true, false, true, false))
    case 13 => Some(Shape(true, true, false, false, true))
    case 14 => Some(Shape(true, false, false, true, true))
    case 15 => Some(Shape(false, false, true, false, true))
    case 16 => Some(Shape(false, false, false, true, true))
    case 17 => Some(Shape(true, false, true, false, false))
    case 18 => Some(Shape(true, false, true, false, true))
    case 20 => Some(Shape(false, true, false, true, true))
    case 21 => Some(Shape(true, true, false, true, false))
    case 22 => Some(Shape(true, true, false, true, true))
    case 23 => Some(Shape(true, false, true, true, false))
    case 24 => Some(Shape(true, false, true, true, true))
    case 25 => Some(Shape(false, true, true, false, false))
    case 26 => Some(Shape(false, true, true, false, true))
    case 27 => Some(Shape(false, false, true, true, false))
    case 28 => Some(Shape(false, false, true, true, true))
    case 29 => Some(Shape(true, true, true, false, false))
    case 30 => Some(Shape(true, true, true, false, true))
    case 31 => Some(Shape(false, true, true, true, false))
    case 32 => Some(Shape(false, true, true, true, true))
    case 33 => Some(Shape(true, true, true, true, false))
    case _ => None
  }

  /** The agent's classification and the data plane's probes agree: a key that sets some
      field gets a combo whose probe copies exactly its fields, and that probe is the first
      one, in bit order, that copies those fields. Only the all-zero key is refused. */
  lemma ComboAgreesWithProbes(s: Shape)
    ensures ValidCombo(ComboOf(s)) <==> s != Shape(false, false, false, false, false)
    ensures ValidCombo(ComboOf(s)) ==>
              ComboOf(s) < COMBO_MAX && ProbeShape(ComboOf(s)) == Some(s)
    ensures forall b: nat :: ProbeShape(b) == Some(s) ==> b < COMBO_MAX && 0 <= ComboOf(s) <= b
  {
  }

  /** Probe rows 20 and 32 repeat rows 2 and 1, so no key is ever classified as either. */
  lemma DeadCombos(s: Shape)
    ensures ComboOf(s) != 19 && ComboOf(s) != 20 && ComboOf(s) != 32
    ensures ProbeShape(20) == ProbeShape(2) && ProbeShape(32) == ProbeShape(1)
  {
  }
}
