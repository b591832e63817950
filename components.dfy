/** The component records an entity may carry (include/Components.h).
    Each record has a `has` flag that defaults to false; the payload keeps
    only the non-graphical part of each record. */
module Components {

  /** The component kinds, in the order of the pool's component tuple
      (include/EntityMemoryPool.h:15-21). */
  datatype Kind = Transform | Animation | Shape | Text | Cell

  const KindCount: nat := 5

  /** Position of a kind in the component tuple. */
  function KindIndex(k: Kind): (i: nat)
    ensures i < KindCount
  {
    match k
    case Transform => 0
    case Animation => 1
    case Shape => 2
    case Text => 3
    case Cell => 4
  }

  /** The kind stored at a tuple position; inverse of KindIndex. */
  function KindAt(i: nat): (k: Kind)
    requires i < KindCount
    ensures KindIndex(k) == i
  {
    if i == 0 then Transform
    else if i == 1 then Animation
    else if i == 2 then Shape
    else if i == 3 then Text
    else Cell
  }

  lemma KindIndexInjective(k: Kind)
    ensures KindAt(KindIndex(k)) == k
  {
  }

  /** Payload of a component record. Floating-point fields are kept as reals
      and are only stored and copied, never computed with. */
  datatype Payload =
    | TransformData(posX: real, posY: real)                  // CTransform::pos
    | AnimationData(animationName: string, isRepeating: bool) // CAnimation
    | ShapeData(width: real, height: real)                    // CShape: rectangle size
    | TextData(text: string, containerWidth: real, containerHeight: real) // CText
    | CellData(val: int)                                      // CCell::val

  function KindOf(p: Payload): Kind
  {
    match p
    case TransformData(_, _) => Transform
    case AnimationData(_, _) => Animation
    case ShapeData(_, _) => Shape
    case TextData(_, _, _) => Text
    case CellData(_) => Cell
  }

  /** A component slot: the `has` flag of ComponentBase and the payload. */
  datatype Component = Component(has: bool, payload: Payload)

  /** The value-initialised record of a kind (`T{}`), as the pool stores it
      after construction and after resetComponents. */
  function Default(k: Kind): (c: Component)
    ensures !c.has && KindOf(c.payload) == k
  {
    match k
    case Transform => Component(false, TransformData(0.0, 0.0))
    case Animation => Component(false, AnimationData("NONE", false))
    case Shape => Component(false, ShapeData(0.0, 0.0))
    case Text => Component(false, TextData("", 0.0, 0.0))
    case Cell => Component(false, CellData(0))
  }
}
