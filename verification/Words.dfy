/** Bytes, 32-bit words and optional values shared by the other modules. */
module Words {

  type u8 = x: int | 0 <= x < 256
  type u16 = x: int | 0 <= x < 0x1_0000
  type u32 = x: int | 0 <= x < 0x1_0000_0000

  datatype Option<+T> = None | Some(value: T)

  /** `x + 1` as the C code computes it on an unsigned 32-bit variable. */
  function Inc32(x: u32): u32 {
    (x + 1) % 0x1_0000_0000
  }

  /** The little-endian 32-bit word stored at `s[k..k+4]`. */
  function Word32(s: seq<u8>, k: nat): u32
    requires k + 4 <= |s|
  {
    s[k] as int + 0x100 * s[k + 1] as int + 0x1_0000 * s[k + 2] as int + 0x100_0000 * s[k + 3] as int
  }

  /** The four bytes of `x`, least significant first. */
  function Bytes32(x: u32): (s: seq<u8>)
    ensures |s| == 4 && Word32(s, 0) == x
  {
    var x1 := x / 0x100;
    var x2 := x1 / 0x100;
    assert x == 0x100 * x1 + x % 0x100 && x1 == 0x100 * x2 + x1 % 0x100;
    [x % 0x100, x1 % 0x100, x2 % 0x100, x2 / 0x100]
  }

  /** A word can be read where it has been written. */
  lemma WordAt(before: seq<u8>, x: u32, after: seq<u8>)
    ensures Word32(before + Bytes32(x) + after, |before|) == x
  {
    var s, w := before + Bytes32(x) + after, Bytes32(x);
    assert s[|before|] == w[0] && s[|before| + 1] == w[1] && s[|before| + 2] == w[2] && s[|before| + 3] == w[3];
  }

  function Min(a: nat, b: nat): nat {
    if a <= b then a else b
  }

  function Concat<T>(pieces: seq<seq<T>>): seq<T> {
    if pieces == [] then [] else pieces[0] + Concat(pieces[1..])
  }

  /** `front` before the rest, if there is one. */
  function Glue<T>(front: seq<T>, rest: Option<seq<T>>): Option<seq<T>> {
    if rest.None? then None else Some(front + rest.value)
  }

  lemma GlueGlue<T>(a: seq<T>, b: seq<T>, rest: Option<seq<T>>)
    ensures Glue(a, Glue(b, rest)) == Glue(a + b, rest)
  {
    if rest.Some? {
      assert a + (b + rest.value) == a + b + rest.value;
    }
  }
}
