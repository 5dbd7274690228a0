/**
 * Node's `Buffer.from(s, "utf8")` and `crypto.timingSafeEqual`, as far as the
 * proxy signature check depends on them: the byte length of a token decides
 * whether the comparison throws, and the bytes decide whether it matches.
 */
module Bytes {
  import opened Wrappers

  type Byte = b: int | 0 <= b < 0x100

  predicate IsAscii(s: string)
  {
    forall i | 0 <= i < |s| :: (s[i] as int) < 0x80
  }

  /** The UTF-8 encoding of one Unicode scalar value. */
  function EncodeChar(c: char): (r: seq<Byte>)
    ensures 1 <= |r| <= 4
    ensures (r[0] < 0x80) == ((c as int) < 0x80)
    ensures (c as int) < 0x80 ==> r == [c as int]
  {
    var n := c as int;
    if n < 0x80 then [n]
    else if n < 0x800 then [0xC0 + n / 0x40, 0x80 + n % 0x40]
    else if n < 0x1_0000 then [0xE0 + n / 0x1000, 0x80 + (n / 0x40) % 0x40, 0x80 + n % 0x40]
    else [0xF0 + n / 0x4_0000, 0x80 + (n / 0x1000) % 0x40, 0x80 + (n / 0x40) % 0x40, 0x80 + n % 0x40]
  }

  /** `Buffer.from(s, "utf8")`: the UTF-8 bytes of `s`. */
  function FromUtf8(s: string): (r: seq<Byte>)
    ensures |r| >= |s|
    ensures IsAscii(s) ==> |r| == |s|
  {
    if s == [] then [] else EncodeChar(s[0]) + FromUtf8(s[1..])
  }

  /** Two strings, one of them ASCII, have the same UTF-8 bytes exactly when they are equal. */
  lemma {:induction false} AsciiBytesInjective(a: string, b: string)
    requires IsAscii(a)
    ensures FromUtf8(a) == FromUtf8(b) <==> a == b
  {
    if a != [] && b != [] && FromUtf8(a) == FromUtf8(b) {
      var ea, eb := EncodeChar(a[0]), EncodeChar(b[0]);
      assert FromUtf8(a) == ea + FromUtf8(a[1..]);
      assert FromUtf8(b) == eb + FromUtf8(b[1..]);
      assert ea == [a[0] as int];
      assert eb[0] == FromUtf8(b)[0] == FromUtf8(a)[0] == ea[0];
      assert eb == [b[0] as int];
      assert a[0] == b[0];
      assert FromUtf8(a[1..]) == FromUtf8(a)[1..] == FromUtf8(b)[1..] == FromUtf8(b[1..]);
      AsciiBytesInjective(a[1..], b[1..]);
      assert a == [a[0]] + a[1..];
      assert b == [b[0]] + b[1..];
    }
  }

  datatype CryptoError = InputBuffersLengthMismatch

  /**
   * `crypto.timingSafeEqual(a, b)`: throws a RangeError when the byte lengths
   * differ, otherwise tells whether the bytes are equal. Its constant running
   * time is not expressible here.
   */
  function TimingSafeEqual(a: seq<Byte>, b: seq<Byte>): (r: Result<bool, CryptoError>)
    ensures r.Failure? <==> |a| != |b|
    ensures r.Success? ==> (r.value <==> a == b)
  {
    if |a| != |b| then Failure(InputBuffersLengthMismatch) else Success(a == b)
  }
}
