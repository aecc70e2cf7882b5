/**
 * The record kept per filesystem object (`FileDirStruct`) and the
 * unsigned 64-bit arithmetic its size field follows.
 */
module FileDir {

  const TWO_64: int := 0x1_0000_0000_0000_0000

  /** Go's `uint64`. */
  type U64 = x: int | 0 <= x < TWO_64

  /**
   * Reduction modulo 2^64: what a `uint64` addition or subtraction keeps.
   * Written as repeated correction by 2^64 so that proofs see the modulus
   * only through WrapMod.
   */
  function Wrap(x: int): (r: U64)
    decreases x < 0, if x < 0 then -x else x
  {
    if x < 0 then Wrap(x + TWO_64)
    else if x >= TWO_64 then Wrap(x - TWO_64)
    else x
  }

  /** Wrap is the remainder of division by 2^64. */
  lemma {:induction false} WrapMod(x: int)
    ensures Wrap(x) == x % TWO_64
    decreases x < 0, if x < 0 then -x else x
  {
    if x < 0 {
      WrapMod(x + TWO_64);
    } else if x >= TWO_64 {
      WrapMod(x - TWO_64);
    }
  }

  /** Wrapping after each step of a sum is the same as wrapping once at the end. */
  lemma WrapAdd(a: int, b: int)
    ensures Wrap(Wrap(a) + b) == Wrap(a + b)
  {
    WrapMod(a);
    WrapMod(Wrap(a) + b);
    WrapMod(a + b);
    var q := a / TWO_64;
    assert a == q * TWO_64 + Wrap(a);
    assert a + b == q * TWO_64 + (Wrap(a) + b);
  }

  /** Adding a multiple of 2^64 is invisible after wrapping. */
  lemma WrapShift(x: int, q: int)
    ensures Wrap(x + q * TWO_64) == Wrap(x)
  {
    WrapMod(x);
    WrapMod(x + q * TWO_64);
  }

  /** Subtraction in `uint64` undoes a wrapped addition. */
  lemma WrapSub(a: int, b: int)
    ensures Wrap(Wrap(a) - b) == Wrap(a - b)
  {
    WrapAdd(a, -b);
  }

  /** `FileDirStruct{FullPath, Size, IsDir}`. */
  datatype Entry = Entry(fullPath: string, size: U64, isDir: bool)

  /** Go's zero value of `FileDirStruct`. */
  const Zero: Entry := Entry("", 0, false)

  /** What `os.Lstat` reports about an object: its kind and `uint64(Size())`. */
  datatype Info = Info(isDir: bool, size: U64)

  /** The store's contents: full path to record. */
  type Records = map<string, Entry>
}
