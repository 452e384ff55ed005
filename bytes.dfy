/** Octets, optional values and results shared by the whole model. */
module Bytes {

  /** An octet, as Rust's `u8`. */
  type Byte = x: int | 0 <= x < 0x100

  /** A 32-bit unsigned integer, as Rust's `u32`. */
  type U32 = x: int | 0 <= x < 0x1_0000_0000

  datatype Option<+T> = None | Some(value: T)

  datatype Result<+T, +E> = Ok(value: T) | Err(error: E)

  function Min(a: int, b: int): int
  {
    if a < b then a else b
  }

  /** `n` zero octets, the contents of a freshly zeroed buffer. */
  function Zeros(n: nat): (z: seq<Byte>)
    ensures |z| == n
    ensures forall i :: 0 <= i < n ==> z[i] == 0
  {
    seq(n, _ => 0)
  }

  /** A sequence is its first `n` elements followed by the rest. */
  lemma TakeDrop<T>(s: seq<T>, n: nat)
    requires n <= |s|
    ensures s[..n] + s[n..] == s
  {
  }

  /** Dropping `a` elements and then `b` drops `a + b`. */
  lemma DropDrop<T>(s: seq<T>, a: nat, b: nat)
    requires a + b <= |s|
    ensures s[a..][b..] == s[a + b..]
  {
  }

  /** The first `a` elements followed by the next `b` are the first `a + b`. */
  lemma TakeMore<T>(s: seq<T>, a: nat, b: nat)
    requires a + b <= |s|
    ensures s[..a] + s[a..][..b] == s[..a + b]
  {
  }

  /** A sequence is the prefix of itself followed by anything. */
  lemma PrefixOfConcat<T>(s: seq<T>, t: seq<T>)
    ensures (s + t)[..|s|] == s
  {
  }

  /** A non-empty sequence is its first element followed by the rest. */
  lemma FirstRest<T>(s: seq<T>)
    requires |s| >= 1
    ensures [s[0]] + s[1..] == s
  {
  }

  lemma DropCons<T>(a: T, t: seq<T>)
    ensures ([a] + t)[1..] == t
  {
  }
}
