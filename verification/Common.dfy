/** Integer widths, reserved values and small datatypes shared by the models. */
module Common {
  const TWO32: int := 0x1_0000_0000
  const TWO64: int := 0x1_0000_0000_0000_0000

  /** A 64-bit address (`Addr_t`), a 32-bit depth (`Depth_t`) and an 8-bit byte. */
  type Addr = a: int | 0 <= a < 0x1_0000_0000_0000_0000
  type Depth = d: int | 0 <= d < 0x1_0000_0000
  type Byte = b: int | 0 <= b < 256

  const MAX_ADDR: Addr := 0xFFFF_FFFF_FFFF_FFFF
  const BAD_ADDR: Addr := 0xFFFF_FFFF_FFFF_FFFE

  datatype Option<+T> = None | Some(value: T) {
    function Or(other: T): T { if this.Some? then this.value else other }
  }

  /** What resizing a vector to n elements leaves; new ones are `fill`. */
  function Resized<T>(v: seq<T>, n: nat, fill: T): (r: seq<T>)
    ensures |r| == n
    ensures forall i :: 0 <= i < n ==> r[i] == if i < |v| then v[i] else fill
  {
    seq(n, i requires 0 <= i < n => if i < |v| then v[i] else fill)
  }
}
