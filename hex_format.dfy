/**
 * Lowercase base16 (the encoding of section 8 of RFC 4648 with the lowercase
 * alphabet), as `derivedKey.joinToString("") { "%02x".format(it) }` produces it
 * from a `ByteArray`, together with the decoder that inverts it.
 */
module HexFormat {
  import opened Wrappers
  import opened KotlinTypes

  const Alphabet: string := "0123456789abcdef"

  /** Every character of `s` is a lowercase hexadecimal digit. */
  ghost predicate IsLowerHex(s: string)
  {
    forall j :: 0 <= j < |s| ==> s[j] in Alphabet
  }

  /** `"%02x".format(b)`: two digits, high nibble first, of the byte read as unsigned. */
  function ByteToHex(b: Byte): (s: string)
    ensures |s| == 2
  {
    var u := UnsignedByte(b);
    [Alphabet[u / 16], Alphabet[u % 16]]
  }

  /** `bytes.joinToString("") { "%02x".format(it) }`. */
  function ToHex(bytes: seq<Byte>): (s: string)
    ensures |s| == 2 * |bytes|
  {
    if bytes == [] then "" else ByteToHex(bytes[0]) + ToHex(bytes[1..])
  }

  /** Characters `2i` and `2i+1` of the hex string are the two digits of byte `i`. */
  lemma {:induction false} ToHexDigits(bytes: seq<Byte>, i: nat)
    requires i < |bytes|
    ensures ToHex(bytes)[2 * i] == Alphabet[UnsignedByte(bytes[i]) / 16]
    ensures ToHex(bytes)[2 * i + 1] == Alphabet[UnsignedByte(bytes[i]) % 16]
  {
    if i > 0 {
      ToHexDigits(bytes[1..], i - 1);
      assert ToHex(bytes)[2 * i] == ToHex(bytes[1..])[2 * (i - 1)];
      assert ToHex(bytes)[2 * i + 1] == ToHex(bytes[1..])[2 * (i - 1) + 1];
    }
  }

  /** The hex string uses only the lowercase alphabet. */
  lemma ToHexIsLowerHex(bytes: seq<Byte>)
    ensures IsLowerHex(ToHex(bytes))
  {
  }

  /** The value of a lowercase hex digit; any other character is refused. */
  function DigitValue(c: char): (d: Option<nat>)
    ensures d.Some? <==> c in Alphabet
    ensures d.Some? ==> d.value < 16 && Alphabet[d.value] == c
  {
    if '0' <= c <= '9' then Some(c as int - '0' as int)
    else if 'a' <= c <= 'f' then Some(c as int - 'a' as int + 10)
    else None
  }

  /** Each digit of the alphabet decodes to its own position in it. */
  lemma DigitValueOfAlphabet(k: nat)
    requires k < 16
    ensures DigitValue(Alphabet[k]) == Some(k)
  {
  }

  /** Pairwise decoding of a lowercase hex string back into a `ByteArray`; odd length or a foreign character fails. */
  function FromHex(s: string): Option<seq<Byte>>
    decreases |s|
  {
    if s == [] then Some([])
    else if |s| == 1 then None
    else
      var hi, lo, rest := DigitValue(s[0]), DigitValue(s[1]), FromHex(s[2..]);
      if hi.Some? && lo.Some? && rest.Some? then Some([SignedByte(16 * hi.value + lo.value)] + rest.value)
      else None
  }

  /** The two digits of one byte decode to that byte. */
  lemma ByteToHexDecodes(b: Byte)
    ensures var h := ByteToHex(b);
            && DigitValue(h[0]).Some? && DigitValue(h[1]).Some?
            && SignedByte(16 * DigitValue(h[0]).value + DigitValue(h[1]).value) == b
  {
    var u := UnsignedByte(b);
    DigitValueOfAlphabet(u / 16);
    DigitValueOfAlphabet(u % 16);
    ByteRoundTrips(b, 0);
  }

  /** Decoding a valid digit pair in front of a decodable string prepends that pair's byte. */
  lemma FromHexPair(h: string, t: string)
    requires |h| == 2 && DigitValue(h[0]).Some? && DigitValue(h[1]).Some? && FromHex(t).Some?
    ensures FromHex(h + t) == Some([SignedByte(16 * DigitValue(h[0]).value + DigitValue(h[1]).value)] + FromHex(t).value)
  {
    var s := h + t;
    assert s[0] == h[0] && s[1] == h[1] && s[2..] == t;
  }

  /** Putting a byte's two digits in front of a decodable string puts the byte in front of its decoding. */
  lemma PrependByte(b: Byte, t: string, rest: seq<Byte>)
    requires FromHex(t) == Some(rest)
    ensures FromHex(ByteToHex(b) + t) == Some([b] + rest)
  {
    ByteToHexDecodes(b);
    FromHexPair(ByteToHex(b), t);
  }

  /** Decoding the hex string pairwise recovers the original bytes. */
  lemma {:induction false} FromHexOfToHex(bytes: seq<Byte>)
    ensures FromHex(ToHex(bytes)) == Some(bytes)
  {
    if bytes != [] {
      FromHexOfToHex(bytes[1..]);
      PrependByte(bytes[0], ToHex(bytes[1..]), bytes[1..]);
      assert [bytes[0]] + bytes[1..] == bytes;
    }
  }

  /** Whatever the decoder accepts is exactly the hex encoding of what it returns. */
  lemma {:induction false} ToHexOfFromHex(s: string, bytes: seq<Byte>)
    requires FromHex(s) == Some(bytes)
    ensures ToHex(bytes) == s
  {
    if s != [] {
      var hi, lo, rest := DigitValue(s[0]).value, DigitValue(s[1]).value, FromHex(s[2..]).value;
      var u := 16 * hi + lo;
      assert bytes == [SignedByte(u)] + rest;
      ToHexOfFromHex(s[2..], rest);
      ByteRoundTrips(0, u);
      assert u / 16 == hi && u % 16 == lo;
      assert ByteToHex(bytes[0]) == [s[0], s[1]];
      assert bytes[1..] == rest;
      assert s == [s[0], s[1]] + s[2..];
    }
  }

  /** The decoder and the encoder are inverse: `s` decodes to `bytes` exactly when `bytes` encodes to `s`. */
  lemma HexIff(s: string, bytes: seq<Byte>)
    ensures FromHex(s) == Some(bytes) <==> ToHex(bytes) == s
  {
    if FromHex(s) == Some(bytes) {
      ToHexOfFromHex(s, bytes);
    }
    if ToHex(bytes) == s {
      FromHexOfToHex(bytes);
    }
  }
}
