/** Vocabulary shared by both codec revisions: byte and code-unit types,
    an option type, the two-digit hex fields the headers are made of, and
    the store that removes the offset.
    The hex helpers stand for JavaScript's `toString(16)` and
    `parseInt(_, 16)` on well-formed digit strings. */
module Common {

  /** A value stored in a `Uint8Array`. */
  type Byte = x: int | 0 <= x < 256

  /** A UTF-16 code unit, as returned by `charCodeAt`. */
  type Unit = x: int | 0 <= x < 0x1_0000

  datatype Option<+T> = None | Some(value: T)

  /** The characters `0-9`, `A-F` and `a-f`. */
  predicate IsHexDigit(u: int) {
    48 <= u <= 57 || 65 <= u <= 70 || 97 <= u <= 102
  }

  predicate IsHex(s: seq<int>) {
    forall i :: 0 <= i < |s| ==> IsHexDigit(s[i])
  }

  function HexValue(u: int): (r: nat)
    requires IsHexDigit(u)
    ensures r < 16
    ensures u <= 57 ==> r == u - 48
  {
    if u <= 57 then u - 48 else if u <= 70 then u - 55 else u - 87
  }

  /** The lower-case digit `toString(16)` writes for `n`. */
  function HexDigit(n: nat): (u: Unit)
    requires n < 16
    ensures IsHexDigit(u) && HexValue(u) == n
    ensures !(65 <= u <= 70)
  {
    if n < 10 then 48 + n else 87 + n
  }

  /** The value of a string of hex digits, most significant digit first. */
  function ParseHex(s: seq<int>): (r: nat)
    requires IsHex(s)
    ensures |s| <= 1 ==> r < 0x10
    ensures |s| == 2 ==> r < 0x100
    ensures |s| == 3 ==> r < 0x1000
    ensures |s| == 4 ==> r < 0x1_0000
  {
    if |s| == 0 then 0 else ParseHex(s[..|s| - 1]) * 16 + HexValue(s[|s| - 1])
  }

  /** `b.toString(16).padStart(2, "0")`: two lower-case hex digits. */
  function Hex2(b: Byte): (r: seq<Unit>)
    ensures |r| == 2 && IsHex(r) && ParseHex(r) == b
  {
    var r := [HexDigit(b / 16), HexDigit(b % 16)];
    assert r[..1] == [HexDigit(b / 16)];
    r
  }

  /** The decoders' final store: a value above 0 and below the offset gets
      256 - offset added, any other loses the offset, and the `Uint8Array`
      keeps the result modulo 256. Both branches remove the offset modulo
      256, for 0 and negative values too. */
  function Unshift(v: int, offset: Byte): (r: Byte)
    ensures r == (v - offset) % 256
  {
    (if v < offset && v > 0 then v + (256 - offset) else v - offset) % 256
  }
}
