/** What every module may use: an optional value, bytes, and lists without repetition. */
module Wrappers {

  datatype Option<+T> = None | Some(value: T)

  type Byte = x: int | 0 <= x < 256

  /** The number that bytes stand for in network order, most significant byte first. */
  function BigEndian(b: seq<Byte>): nat {
    if b == [] then 0 else BigEndian(b[..|b| - 1]) * 0x100 + b[|b| - 1]
  }

  /** Two and four of them. */
  lemma BigEndianOf(b: seq<Byte>)
    ensures |b| == 2 ==> BigEndian(b) == b[0] as int * 0x100 + b[1] as int
    ensures |b| == 4 ==>
      BigEndian(b) == b[0] as int * 0x100_0000 + b[1] as int * 0x1_0000 + b[2] as int * 0x100 + b[3] as int
  {
    if |b| == 2 {
      assert b[..1][..0] == [] && BigEndian(b[..1]) == b[0];
    } else if |b| == 4 {
      assert b[..3][..2] == b[..2] && b[..2][..1] == b[..1] && b[..1][..0] == [];
      assert BigEndian(b[..1]) == b[0] && BigEndian(b[..2]) == b[0] as int * 0x100 + b[1] as int;
      assert BigEndian(b[..3]) == BigEndian(b[..2]) * 0x100 + b[2] as int;
    }
  }

  ghost predicate Distinct<T>(xs: seq<T>) {
    forall i, j :: 0 <= i < j < |xs| ==> xs[i] != xs[j]
  }
}
