/** Identifier generation (`GenerateId`) and randomised back-off durations
    (`GenerateRandomDuration`). The random sources are parameters: the bytes
    `crypto/rand` would deliver, and the raw draw behind `math/rand.Int63n`. */
module Crypto {
  import opened Wrappers

  /** Go's `byte`. */
  newtype byte = x: int | 0 <= x < 256

  /** `time.Duration` counts nanoseconds. */
  const Millisecond: int := 1_000_000

  /** Size used when the requested one is out of range. */
  const DefaultIdSize: int := 32

  /** The lowercase alphabet of Base16 (section 8 of RFC 4648), as written by `encoding/hex`. */
  predicate IsHexDigit(c: char) {
    '0' <= c <= '9' || 'a' <= c <= 'f'
  }

  function HexDigit(n: int): (c: char)
    requires 0 <= n < 16
    ensures IsHexDigit(c)
  {
    if n < 10 then (48 + n) as char else (87 + n) as char
  }

  function HexValue(c: char): (n: int)
    requires IsHexDigit(c)
    ensures 0 <= n < 16
  {
    if c <= '9' then c as int - 48 else c as int - 87
  }

  lemma HexDigitValue(n: int)
    requires 0 <= n < 16
    ensures HexValue(HexDigit(n)) == n
  {
  }

  lemma HexValueDigit(c: char)
    requires IsHexDigit(c)
    ensures HexDigit(HexValue(c)) == c
  {
  }

  /** `hex.EncodeToString`: two digits per byte, high nibble first. */
  function HexEncode(bs: seq<byte>): (s: string)
    ensures |s| == 2 * |bs|
    ensures forall i :: 0 <= i < |s| ==> IsHexDigit(s[i])
  {
    if |bs| == 0 then ""
    else [HexDigit(bs[0] as int / 16), HexDigit(bs[0] as int % 16)] + HexEncode(bs[1..])
  }

  /** Reference decoder for the lowercase alphabet; odd length or any other
      character is rejected. */
  function HexDecode(s: string): (r: Option<seq<byte>>)
    ensures r.Some? ==> |s| == 2 * |r.value|
  {
    if |s| == 0 then Some([])
    else if |s| == 1 || !IsHexDigit(s[0]) || !IsHexDigit(s[1]) then None
    else
      match HexDecode(s[2..])
      case None => None
      case Some(rest) => Some([(HexValue(s[0]) * 16 + HexValue(s[1])) as byte] + rest)
  }

  /** Byte `i` of the input is written at positions `2i` (high nibble) and `2i+1` (low nibble). */
  lemma {:induction false} HexEncodeNibbles(bs: seq<byte>, i: int)
    requires 0 <= i < |bs|
    ensures HexEncode(bs)[2 * i] == HexDigit(bs[i] as int / 16)
    ensures HexEncode(bs)[2 * i + 1] == HexDigit(bs[i] as int % 16)
  {
    if i > 0 {
      HexEncodeNibbles(bs[1..], i - 1);
      assert HexEncode(bs) == HexEncode(bs[..1]) + HexEncode(bs[1..]);
    }
  }

  /** Decoding an encoding gives back the bytes. */
  lemma {:induction false} HexRoundTrip(bs: seq<byte>)
    ensures HexDecode(HexEncode(bs)) == Some(bs)
  {
    if |bs| > 0 {
      var s := HexEncode(bs);
      var b := bs[0] as int;
      HexDigitValue(b / 16);
      HexDigitValue(b % 16);
      assert s[2..] == HexEncode(bs[1..]);
      HexRoundTrip(bs[1..]);
      assert bs == [bs[0]] + bs[1..];
    }
  }

  /** Every string the decoder accepts is the encoding of what it decodes to. */
  lemma {:induction false} HexDecodeCanonical(s: string)
    requires HexDecode(s).Some?
    ensures HexEncode(HexDecode(s).value) == s
  {
    if |s| > 0 {
      var bs := HexDecode(s).value;
      var hi := HexValue(s[0]);
      var lo := HexValue(s[1]);
      assert bs[0] as int == hi * 16 + lo;
      assert bs[0] as int / 16 == hi && bs[0] as int % 16 == lo;
      HexValueDigit(s[0]);
      HexValueDigit(s[1]);
      HexDecodeCanonical(s[2..]);
      assert bs[1..] == HexDecode(s[2..]).value;
      assert s == s[..2] + s[2..];
    }
  }

  /** The size actually used by `GenerateId`. */
  function ClampIdSize(size: int): (n: int)
    ensures 0 < n < 100
    ensures 0 < size < 100 ==> n == size
    ensures size <= 0 || size >= 100 ==> n == DefaultIdSize
  {
    if size <= 0 || size >= 100 then DefaultIdSize else size
  }

  /** `GenerateId(prefix, size)`. `entropy` is what the random reader yields:
      `None` for a read error, and fewer bytes than needed make `io.ReadFull`
      fail as well. A failure yields the empty string. */
  function GenerateId(prefix: string, size: int, entropy: Option<seq<byte>>): (id: string)
    ensures id == "" <==> entropy.None? || |entropy.value| < ClampIdSize(size)
    ensures id != "" ==>
      var n := ClampIdSize(size);
      && |id| == |prefix| + 1 + 2 * n
      && id[..|prefix|] == prefix
      && id[|prefix|] == '_'
      && (forall i :: |prefix| < i < |id| ==> IsHexDigit(id[i]))
      && HexDecode(id[|prefix| + 1..]) == Some(entropy.value[..n])
  {
    var n := ClampIdSize(size);
    if entropy.None? || |entropy.value| < n then ""
    else
      var hex := HexEncode(entropy.value[..n]);
      HexRoundTrip(entropy.value[..n]);
      var id := prefix + "_" + hex;
      assert id[|prefix| + 1..] == hex;
      assert forall i :: |prefix| < i < |id| ==> id[i] == hex[i - |prefix| - 1];
      id
  }

  /** `GenerateRandomDuration(d)`: `Int63n(d.Milliseconds())` milliseconds.
      `draw` is the generator's raw output, reduced into range. `Int63n`
      panics on a non-positive bound, hence the requirement. */
  function GenerateRandomDuration(d: int, draw: nat): (r: int)
    requires d >= Millisecond
    ensures 0 <= r < d
    ensures r % Millisecond == 0
  {
    var n := d / Millisecond;
    (draw % n) * Millisecond
  }
}
