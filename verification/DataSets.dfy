/** The records a filter works on: an array used up to `nrec`, and a bound on its values. */
module DataSets {
  import opened Arith

  /** The value of a data set: its records, and a number no record exceeds. */
  datatype Records = Records(vals: seq<nat>, maxval: nat) {
    ghost predicate Valid(w: nat) {
      |vals| <= 0x1_0000 && maxval < Pow2(w) && forall i :: 0 <= i < |vals| ==> vals[i] <= maxval
    }
  }

  class DataSet {
    const w: nat             // bits in a record's type: 8, 16, 32 or 64
    const data: array<nat>
    var maxval: nat
    var nrec: nat

    constructor (w: nat, data: array<nat>, maxval: nat, nrec: nat)
      ensures this.w == w && this.data == data && this.maxval == maxval && this.nrec == nrec
    {
      this.w, this.data, this.maxval, this.nrec := w, data, maxval, nrec;
    }

    ghost function View(): Records
      requires nrec <= data.Length
      reads this, data
    {
      Records(data[..nrec], maxval)
    }

    ghost predicate Valid()
      reads this, data
    {
      nrec <= data.Length && View().Valid(w)
    }

    /** What a decoding pass knows before the records are back: how many there are, and their bound. */
    ghost predicate Expects(d: Records)
      reads this
    {
      d.Valid(w) && nrec == |d.vals| <= data.Length && maxval == d.maxval
    }

    ghost predicate Holds(d: Records)
      reads this, data
    {
      nrec == |d.vals| <= data.Length && data[..nrec] == d.vals
    }
  }
}
