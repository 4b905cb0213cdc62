/** The text form in which the server stores binary columns: two lowercase
    hexadecimal digits for each byte, high digit first. Text is a sequence of
    ASCII codes. */
module HexColumn {
  import opened Wrappers
  import opened Bytes

  const KEY_SIZE := 160

  /** The lowercase digit of a nibble. */
  function Digit(n: nat): (c: byte)
    requires n < 16
    ensures 48 <= c <= 57 || 97 <= c <= 102
  {
    if n < 10 then 48 + n else 87 + n
  }

  /** What Python's int(_, 16) reads from one character. */
  function PythonDigit(c: byte): (n: Option<nat>)
    ensures n.Some? ==> n.value < 16
  {
    if 48 <= c <= 57 then Some(c - 48)
    else if 65 <= c <= 70 then Some(c - 55)
    else if 97 <= c <= 102 then Some(c - 87)
    else None
  }

  /** `"".join([f"{x:0{2}x}" for x in data])` */
  function Encode(data: Bytes): (text: Bytes)
    ensures |text| == 2 * |data|
  {
    if data == [] then []
    else [Digit(data[0] / 16), Digit(data[0] % 16)] + Encode(data[1..])
  }

  /** `bytes([int(c[2 * i] + c[2 * i + 1], 16) for i, x in enumerate(c[::2])])` */
  function Decode(text: Bytes): (data: Result<Bytes>)
    ensures data.Ok? ==> |text| == 2 * |data.value|
  {
    if text == [] then Ok([])
    else if |text| == 1 then Raised(IndexError)
    else if PythonDigit(text[0]).None? || PythonDigit(text[1]).None? then Raised(ValueError)
    else
      match Decode(text[2..])
      case Ok(rest) => Ok([16 * PythonDigit(text[0]).value + PythonDigit(text[1]).value] + rest)
      case Raised(e) => Raised(e)
  }

  lemma {:induction false} DecodeInvertsEncode(data: Bytes)
    ensures Decode(Encode(data)) == Ok(data)
  {
    if data != [] {
      var text := Encode(data);
      assert text[2..] == Encode(data[1..]);
      DecodeInvertsEncode(data[1..]);
      assert data == [data[0]] + data[1..];
    }
  }

  /** The digits read are those written, and the capital letters. */
  lemma PythonReadsDigits(c: byte, n: nat)
    ensures PythonDigit(c) == Some(n) <==> n < 16 && (c == Digit(n) || (n >= 10 && c == Digit(n) - 32))
  {
  }

  /** A column decodes exactly when it is pairs of digits. */
  lemma {:induction false} DecodesIffDigits(text: Bytes)
    ensures Decode(text).Ok? <==>
            |text| % 2 == 0 && forall i :: 0 <= i < |text| ==> PythonDigit(text[i]).Some?
    decreases |text|
  {
    if |text| >= 2 {
      DecodesIffDigits(text[2..]);
      assert forall i :: 2 <= i < |text| ==> text[i] == text[2..][i - 2];
    }
  }

  /** And then each pair gives its byte. */
  lemma {:induction false} DecodesPairs(text: Bytes, i: nat)
    requires Decode(text).Ok? && i < |Decode(text).value|
    ensures PythonDigit(text[2 * i]).Some? && PythonDigit(text[2 * i + 1]).Some?
    ensures Decode(text).value[i] == 16 * PythonDigit(text[2 * i]).value + PythonDigit(text[2 * i + 1]).value
    decreases i
  {
    if i > 0 {
      DecodesPairs(text[2..], i - 1);
    }
  }

  lemma {:induction false} EncodeAt(data: Bytes, i: nat)
    requires i < |data|
    ensures Encode(data)[2 * i] == Digit(data[i] / 16)
    ensures Encode(data)[2 * i + 1] == Digit(data[i] % 16)
  {
    if i > 0 {
      EncodeAt(data[1..], i - 1);
    }
  }

  /** The C++ decoder's reading of one character, in unsigned char arithmetic. */
  function Nibble(c: byte): (n: byte)
  {
    if c <= 57 then (c + 256 - 48) % 256
    else if 97 <= c then c - 87
    else c
  }

  lemma {:induction false} NibbleInvertsDigit(b: byte)
    ensures BitOr(Nibble(Digit(b / 16)) * 16, Nibble(Digit(b % 16))) % 256 == b
  {
    NibbleOfDigit(b / 16);
    NibbleOfDigit(b % 16);
    assert Pow2(4) == 16 by {
      assert Pow2(2) == 4;
    }
    BitOrAdds(b / 16, b % 16, 4);
  }

  lemma NibbleOfDigit(n: nat)
    requires n < 16
    ensures Nibble(Digit(n)) == n
  {
  }

  /** The key constructor: decodes 160 pairs of characters into the key array.
      A list with fewer characters raises IndexError. */
  method DecodePublicKey(text: Bytes) returns (key: Result<Bytes>)
    ensures key.Raised? <==> |text| < 2 * KEY_SIZE
    ensures key.Raised? ==> key.error == IndexError
    ensures key.Ok? ==> key.value == NibblePairs(text, KEY_SIZE)
  {
    var publicKey := new byte[KEY_SIZE](i => 0);
    var i := 0;
    while i < KEY_SIZE
      invariant 0 <= i <= KEY_SIZE
      invariant 2 * i <= |text|
      invariant publicKey[..i] == NibblePairs(text, i)
    {
      if |text| <= 2 * i + 1 {
        return Raised(IndexError);
      }
      var bch: nat := Nibble(text[2 * i]);
      var lch: nat := Nibble(text[2 * i + 1]);
      publicKey[i] := BitOr(bch * 16, lch) % 256;
      i := i + 1;
    }
    assert publicKey[..KEY_SIZE] == publicKey[..];
    key := Ok(publicKey[..]);
  }

  /** The first n bytes the C++ decoder produces. */
  function NibblePairs(text: Bytes, n: nat): (key: Bytes)
    requires 2 * n <= |text|
    ensures |key| == n
  {
    if n == 0 then []
    else NibblePairs(text, n - 1) + [BitOr(Nibble(text[2 * n - 2]) * 16, Nibble(text[2 * n - 1])) % 256]
  }

  lemma {:induction false} NibblePairsInvertEncode(data: Bytes, n: nat)
    requires n <= |data|
    ensures NibblePairs(Encode(data), n) == data[..n]
  {
    if n > 0 {
      NibblePairsInvertEncode(data, n - 1);
      EncodeAt(data, n - 1);
      NibbleInvertsDigit(data[n - 1]);
      assert data[..n] == data[..n - 1] + [data[n - 1]];
    }
  }

  /** The C++ decoder inverts the Python encoder on every 160-byte key. */
  lemma {:induction false} KeyRoundTrip(key: Bytes)
    requires |key| == KEY_SIZE
    ensures NibblePairs(Encode(key), KEY_SIZE) == key
  {
    NibblePairsInvertEncode(key, KEY_SIZE);
    assert key[..KEY_SIZE] == key;
  }
}
