/** Outcome datatypes shared by all modules. */
module Wrappers {
  datatype Option<+T> = None | Some(value: T)

  datatype Result<+R, +E> = Success(value: R) | Failure(error: E)
}

/**
 Fixed-width unsigned arithmetic and little-endian reads from a byte buffer.
 C unsigned arithmetic wraps, so every sum and difference that may leave its
 width goes through Add and Sub here; plain `+` is only used where it cannot.
 */
module Words {
  const TWO32: int := 0x1_0000_0000
  const TWO64: int := 0x1_0000_0000_0000_0000
  const MAX64: u64 := TWO64 - 1
  const TWO63: int := 0x8000_0000_0000_0000

  type u8 = x: int | 0 <= x < 0x100
  type u32 = x: int | 0 <= x < TWO32
  type u64 = x: int | 0 <= x < TWO64

  /** The modulus of uint32_t or of uint64_t. */
  type Width = w: int | w == TWO32 || w == TWO64 witness TWO32

  /** A file in memory; its length comes from a `long`, so it is below 2^63. */
  type File = f: seq<u8> | |f| < TWO63 witness []

  /** a + b in the width w. */
  function Add(w: Width, a: u64, b: u64): (r: u64)
    requires a < w && b < w
    ensures r < w
  {
    if a + b < w then a + b else a + b - w
  }

  /** a - b in 64 bits. */
  function Sub(a: u64, b: u64): u64 {
    if b <= a then a - b else a - b + TWO64
  }

  /** Add and Sub are arithmetic modulo the width, and undo each other. */
  lemma WrapsModulo(w: Width, a: u64, b: u64)
    requires a < w && b < w
    ensures Add(w, a, b) == (a + b) % w
    ensures Sub(a, b) == (a - b) % TWO64
    ensures Sub(Add(TWO64, a, b), b) == a
  {
  }

  function Read32(file: seq<u8>, at: nat): u32
    requires at + 4 <= |file|
  {
    var b0: int, b1: int, b2: int, b3: int := file[at], file[at + 1], file[at + 2], file[at + 3];
    b0 + 0x100 * b1 + 0x1_0000 * b2 + 0x100_0000 * b3
  }

  function Read64(file: seq<u8>, at: nat): u64
    requires at + 8 <= |file|
  {
    var lo: int, hi: int := Read32(file, at), Read32(file, at + 4);
    lo + TWO32 * hi
  }

  /** The bytes of a 32-bit field are the digits of its value to base 256, the lowest first. */
  lemma LittleEndian32(file: seq<u8>, at: nat)
    requires at + 4 <= |file|
    ensures var v := Read32(file, at);
            && file[at] == v % 0x100 && file[at + 1] == v / 0x100 % 0x100
            && file[at + 2] == v / 0x1_0000 % 0x100 && file[at + 3] == v / 0x100_0000
  {
    var b0: int, b1: int, b2: int, b3: int := file[at], file[at + 1], file[at + 2], file[at + 3];
    var v := Read32(file, at);
    assert v / 0x100 == b1 + 0x100 * b2 + 0x1_0000 * b3;
    assert v / 0x1_0000 == b2 + 0x100 * b3;
  }

  /** A 64-bit field is its low half and then its high half. */
  lemma LittleEndian64(file: seq<u8>, at: nat)
    requires at + 8 <= |file|
    ensures Read32(file, at) == Read64(file, at) % 0x1_0000_0000
    ensures Read32(file, at + 4) == Read64(file, at) / 0x1_0000_0000
  {
  }
}
