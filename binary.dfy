/**
 * Fixed-width unsigned integers in little-endian byte order, as Go's
 * `encoding/binary` writes and reads the fields of the ICO and BMP headers.
 */
module Binary {

  newtype byte = x: int | 0 <= x < 0x100

  const U16_BOUND: int := 0x1_0000
  const U32_BOUND: int := 0x1_0000_0000

  predicate IsU16(x: int) { 0 <= x < 0x1_0000 }

  predicate IsU32(x: int) { 0 <= x < 0x1_0000_0000 }

  /** The 2-byte value stored at `s[at..at + 2]`. */
  function GetU16(s: seq<byte>, at: nat): (r: int)
    requires at + 2 <= |s|
    ensures IsU16(r)
  {
    s[at] as int + 0x100 * s[at + 1] as int
  }

  /** The 4-byte value stored at `s[at..at + 4]`. */
  function GetU32(s: seq<byte>, at: nat): (r: int)
    requires at + 4 <= |s|
    ensures IsU32(r)
  {
    GetU16(s, at) + 0x1_0000 * GetU16(s, at + 2)
  }

  /** A uint16 written low byte first; reading it back gives `x`. */
  function PutU16(x: int): (r: seq<byte>)
    requires IsU16(x)
    ensures |r| == 2 && GetU16(r, 0) == x
  {
    [(x % 0x100) as byte, (x / 0x100) as byte]
  }

  /** A uint32 written low half first; reading it back gives `x`. */
  function PutU32(x: int): (r: seq<byte>)
    requires IsU32(x)
    ensures |r| == 4 && GetU32(r, 0) == x
  {
    PutU16(x % 0x1_0000) + PutU16(x / 0x1_0000)
  }

  /** Every two bytes are the encoding of the value they hold: no field value is lost on a re-write. */
  lemma U16Canonical(s: seq<byte>, at: nat)
    requires at + 2 <= |s|
    ensures PutU16(GetU16(s, at)) == s[at..at + 2]
  {
    var x := GetU16(s, at);
    assert x % 0x100 == s[at] as int;
    assert x / 0x100 == s[at + 1] as int;
  }

  /** Every four bytes are the encoding of the value they hold. */
  lemma U32Canonical(s: seq<byte>, at: nat)
    requires at + 4 <= |s|
    ensures PutU32(GetU32(s, at)) == s[at..at + 4]
  {
    var lo, hi := GetU16(s, at), GetU16(s, at + 2);
    var x := GetU32(s, at);
    assert x % 0x1_0000 == lo;
    assert x / 0x1_0000 == hi;
    U16Canonical(s, at);
    U16Canonical(s, at + 2);
  }
}
