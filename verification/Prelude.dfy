/** What several modules share: bytes and words, optional values, limits from param.h. */
module Prelude {
  type Byte = x: int | 0 <= x < 256
  type Word = x: int | 0 <= x < 0x1_0000_0000

  datatype Option<T> = None | Some(value: T)

  /** Blocks an operation may add to the log, and data blocks the log may hold. */
  const MAXOPBLOCKS: nat := 10
  const LOGSIZE: nat := 30

  function Min(a: nat, b: nat): nat {
    if a <= b then a else b
  }

  function Max(a: nat, b: nat): nat {
    if a >= b then a else b
  }

  /** a + b in 32-bit arithmetic. */
  function Sum32(a: Word, b: Word): Word {
    (a + b) % 0x1_0000_0000
  }

  /** The test a + b < a for a sum that has wrapped. */
  lemma Sum32Wraps(a: Word, b: Word)
    ensures Sum32(a, b) < a <==> a + b >= 0x1_0000_0000
    ensures a + b < 0x1_0000_0000 ==> Sum32(a, b) == a + b
  {
    if a + b >= 0x1_0000_0000 {
      assert Sum32(a, b) == a + b - 0x1_0000_0000;
    }
  }

  ghost function Without(s: seq<nat>, k: nat): (r: seq<nat>)
    requires k < |s|
    ensures |r| == |s| - 1
    ensures forall i :: 0 <= i < |r| ==> r[i] == s[if i < k then i else i + 1]
  {
    s[..k] + s[k + 1..]
  }

  lemma SubsetSize<T>(a: set<T>, b: set<T>)
    requires a <= b
    ensures |a| <= |b|
  {
    assert b == a + (b - a);
  }
}
