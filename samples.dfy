/** The sample value type: a position plus a 32-bit value, where the value 0
    marks "no sample here". */
module Samples {
  import opened Numeric

  datatype Sample = Sample(x: int, y: int, value: U32) {
    /** A sample is present exactly when its value is not zero. */
    predicate Valid() {
      value != 0
    }
  }

  /** `default(Sample)`, equally `new Sample()`: the absent sample at the origin. */
  const NoSample: Sample := Sample(0, 0, 0)
}
