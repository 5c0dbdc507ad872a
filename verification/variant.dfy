/** `utils::getOr` on a `std::variant`. */
module Variant {

  /** A `std::variant` as seen when asking for the alternative type `T`:
      it holds a `T`, or it holds one of its other alternatives, whose value
      is summarised as `Other`. */
  datatype Variant<T, Other> = Holding(value: T) | HoldingOther(other: Other)

  /** `std::holds_alternative<T>(variant)`. */
  predicate HoldsAlternative<T, Other>(v: Variant<T, Other>) {
    v.Holding?
  }

  /** `getOr(variant, defValue)`: the held `T`, or the default when the
      variant holds another alternative. */
  function GetOr<T, Other>(v: Variant<T, Other>, defValue: T): (r: T)
    ensures HoldsAlternative(v) ==> r == v.value
    ensures !HoldsAlternative(v) ==> r == defValue
  {
    if HoldsAlternative(v) then v.value else defValue
  }

  /** Storing a `T` and reading it back with any default gives it back. */
  lemma GetOrAfterStore<T, Other>(x: T, defValue: T)
    ensures GetOr<T, Other>(Holding(x), defValue) == x
  {
  }

  /** The default matters exactly when the variant does not hold a `T`. */
  lemma GetOrDependsOnDefault<T, Other>(v: Variant<T, Other>, d1: T, d2: T)
    requires d1 != d2
    ensures GetOr(v, d1) == GetOr(v, d2) <==> HoldsAlternative(v)
  {
  }
}
