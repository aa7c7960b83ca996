/** Machine integers of the modelled target: a 64-bit flat address space. */
module Machine {
  const USIZE_MOD: int := 0x1_0000_0000_0000_0000
  const USIZE_MAX: int := 0xFFFF_FFFF_FFFF_FFFF
  const ISIZE_MAX: int := 0x7FFF_FFFF_FFFF_FFFF
  const ISIZE_MIN: int := -0x8000_0000_0000_0000

  /** What unsigned arithmetic keeps of an integer result. */
  function Wrap(x: int): (r: nat)
    ensures r < USIZE_MOD
    ensures 0 <= x < USIZE_MOD ==> r == x
  {
    x % 0x1_0000_0000_0000_0000
  }

  function Min(a: nat, b: nat): (m: nat)
    ensures m <= a && m <= b && (m == a || m == b)
  {
    if a < b then a else b
  }

  /** checked_add: the sum, when it is representable. */
  function CheckedAdd(a: nat, b: nat): Option<nat> {
    if a + b <= USIZE_MAX then Some(a + b) else None
  }

  datatype Option<+T> = None | Some(value: T)

  /** `result__Bool_Error`: the success value is always true, so only the error matters. */
  datatype Result = Ok | Err(error: Error)

  datatype Error = CapacityExceeded | OutOfRange
}
