/** Bytes and 32-bit words as the kernel's C code sees them: bounded naturals,
    explicit wrap-around, little-endian storage. */
module Words {

  const TWO32: int := 0x1_0000_0000

  type byte = x: int | 0 <= x < 256
  type u32 = x: int | 0 <= x < 0x1_0000_0000

  datatype Option<T> = None | Some(value: T)

  // ASCII codes with a meaning to the kernel or the shell
  const NUL: byte := 0
  const BACKSPACE: byte := 8
  const TAB: byte := 9
  const NEWLINE: byte := 10
  const RETURN: byte := 13
  const SPACE: byte := 32
  const DELETE: byte := 127

  /** The value a `uint32_t` holds after an arithmetic result `x` is stored in it. */
  function Wrap(x: int): (r: u32)
    ensures 0 <= x < TWO32 ==> r == x
    ensures TWO32 <= x < 2 * TWO32 ==> r == x - TWO32
  {
    x % TWO32
  }

  function EncodeWord(w: u32): (s: seq<byte>)
    ensures |s| == 4
  {
    [w % 256, w / 256 % 256, w / 65536 % 256, w / 16777216]
  }

  function DecodeWord(s: seq<byte>): (w: u32)
    requires |s| == 4
  {
    s[0] as int + 256 * (s[1] as int) + 65536 * (s[2] as int) + 16777216 * (s[3] as int)
  }

  lemma WordRoundTrip(w: u32)
    ensures DecodeWord(EncodeWord(w)) == w
  {
    assert w == 256 * (w / 256) + w % 256;
    assert w / 256 == 256 * (w / 65536) + w / 256 % 256;
    assert w / 65536 == 256 * (w / 16777216) + w / 65536 % 256;
  }

  /** `s` with the bytes `t` stored over it from index `o`. */
  function Splice<T>(s: seq<T>, o: nat, t: seq<T>): (r: seq<T>)
    requires o + |t| <= |s|
    ensures |r| == |s|
    ensures forall i :: 0 <= i < |s| ==> r[i] == if o <= i < o + |t| then t[i - o] else s[i]
  {
    s[..o] + t + s[o + |t|..]
  }

  lemma SpliceTwice<T>(s: seq<T>, o: nat, t: seq<T>, u: seq<T>)
    requires o + |t| + |u| <= |s|
    ensures Splice(Splice(s, o, t), o + |t|, u) == Splice(s, o, t + u)
  {
  }

  function Zeros(n: nat): (s: seq<byte>)
    ensures |s| == n && forall i :: 0 <= i < n ==> s[i] == 0
  {
    seq(n, _ => 0)
  }

  /** The bytes among the results of polling; -1 is an empty poll. */
  function Bytes(polls: seq<int>): seq<byte> {
    if polls == [] then []
    else if 0 <= polls[0] < 256 then [polls[0]] + Bytes(polls[1..])
    else Bytes(polls[1..])
  }

  lemma {:induction false} BytesAppend(polls: seq<int>, c: int)
    ensures Bytes(polls + [c]) == Bytes(polls) + if 0 <= c < 256 then [c] else []
    decreases |polls|
  {
    if polls == [] {
      assert (polls + [c])[1..] == [];
    } else {
      assert (polls + [c])[1..] == polls[1..] + [c];
      BytesAppend(polls[1..], c);
    }
  }

  function Min(a: int, b: int): int {
    if a < b then a else b
  }
}
