/** Fixed-width words of the C sources, and the few shapes every module shares. */
module Words {
  const TWO8: int := 0x100
  const TWO16: int := 0x1_0000
  const TWO32: int := 0x1_0000_0000

  type u8 = x: int | 0 <= x < TWO8
  type u16 = x: int | 0 <= x < TWO16
  type u32 = x: int | 0 <= x < TWO32

  datatype Option<+T> = None | Some(value: T)

  /** C unsigned 32-bit subtraction `(uint32_t)(later - earlier)`, which wraps modulo 2^32. */
  function Elapsed(later: u32, earlier: u32): u32 {
    (later - earlier) % TWO32
  }

  /** On the wrapping clock any time below 2^32 ticks is measured exactly. */
  lemma ElapsedAcrossWrap(start: nat, passed: nat)
    requires passed < 0x1_0000_0000
    ensures Elapsed((start + passed) % 0x1_0000_0000, start % 0x1_0000_0000) == passed
  {
    var m := 0x1_0000_0000;
    var a, b := (start + passed) % m, start % m;
    assert start + passed == m * ((start + passed) / m) + a && start == m * (start / m) + b;
    assert (a - b - passed) % m == 0;
  }
}
