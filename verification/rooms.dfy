/** Room categories and per-category counts.

    The hotel knows exactly two room types; every count the booking engine
    keeps (total rooms, available rooms, a customer's allocation, a booking
    request) is one integer per type. Counts are unbounded integers, as
    Python's are.
 */
module Rooms {

  /** The closed set of room categories ("Single" and "Double"). */
  datatype RoomType = Single | Double

  /** One integer per room type. */
  datatype Counts = Counts(single: int, double: int) {

    /** The count for room type `t`. */
    function Get(t: RoomType): int {
      match t
      case Single => single
      case Double => double
    }

    /** Pointwise sum. */
    function Plus(d: Counts): (r: Counts)
      ensures forall t :: r.Get(t) == Get(t) + d.Get(t)
    {
      Counts(single + d.single, double + d.double)
    }

    /** Pointwise difference. */
    function Minus(d: Counts): (r: Counts)
      ensures forall t :: r.Get(t) == Get(t) - d.Get(t)
    {
      Counts(single - d.single, double - d.double)
    }

    /** No count is negative. */
    predicate NonNeg() {
      forall t :: Get(t) >= 0
    }
  }

  /** Zero of every type: a new customer's allocation. */
  const Zero := Counts(0, 0)

  /** A pointwise comparison over all room types is the comparison of the
      two fields. */
  lemma AtMostIff(a: Counts, b: Counts)
    ensures (forall t :: a.Get(t) <= b.Get(t)) <==> a.single <= b.single && a.double <= b.double
  {
    if a.single <= b.single && a.double <= b.double {
      forall t ensures a.Get(t) <= b.Get(t) {
        match t
        case Single =>
        case Double =>
      }
    }
    if forall t :: a.Get(t) <= b.Get(t) {
      assert a.Get(Single) <= b.Get(Single) && a.Get(Double) <= b.Get(Double);
    }
  }
}
