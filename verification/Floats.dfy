/** The values the engine stores: exact reals plus the special values of an f64. */
module Floats {
  datatype Float = Finite(value: real) | NaN | PosInf | NegInf {
    predicate IsInfinite() {
      PosInf? || NegInf?
    }
  }
}
