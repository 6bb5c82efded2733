/**
 * The codec shared by the three short-code encoders: a `uint32` is packed
 * little-endian into four bytes and those bytes are written in z-base-32,
 * seven characters in all. Decoding accepts a string only when every
 * character is in the alphabet and it decodes to exactly four bytes. The
 * three encoders differ only in the error they return for a wrong length,
 * so that error is a parameter here.
 */
module ShortCode {
  import opened Model
  import ZBase32

  /** binary.LittleEndian.PutUint32: the low byte first. */
  function PutUint32(v: u32): (b: seq<byte>)
    ensures |b| == 4
  {
    [v % 256, v / 0x100 % 256, v / 0x1_0000 % 256, v / 0x100_0000 % 256]
  }

  /** binary.LittleEndian.Uint32. */
  function Uint32(b: seq<byte>): (v: u32)
    requires |b| == 4
  {
    b[0] as int + 0x100 * b[1] as int + 0x1_0000 * b[2] as int + 0x100_0000 * b[3] as int
  }

  /** Unpacking a packed value gives it back. */
  lemma {:induction false} Uint32OfPutUint32(v: u32)
    ensures Uint32(PutUint32(v)) == v
  {
    var q1 := v / 0x100;
    var q2 := q1 / 0x100;
    var q3 := q2 / 0x100;
    assert v == v % 256 + 0x100 * q1;
    assert q1 == q1 % 256 + 0x100 * q2;
    assert q2 == q2 % 256 + 0x100 * q3;
    assert v / 0x1_0000 == q2;
    assert v / 0x100_0000 == q3;
    assert q3 < 256;
  }

  /** Packing an unpacked four-byte sequence gives it back. */
  lemma {:induction false} PutUint32OfUint32(b: seq<byte>)
    requires |b| == 4
    ensures PutUint32(Uint32(b)) == b
  {
    var v := Uint32(b);
    assert v / 0x100 == b[1] as int + 0x100 * b[2] as int + 0x1_0000 * b[3] as int;
    assert v / 0x1_0000 == b[2] as int + 0x100 * b[3] as int;
    assert v / 0x100_0000 == b[3];
  }

  /** EncodeToString / Shorten: the z-base-32 text of the little-endian bytes. */
  function Encode(v: u32): (s: string)
  {
    ZBase32.EncodeToString(PutUint32(v))
  }

  /**
   * DecodeFromString / Expand / DecodeString: the decoder's own error for a
   * character outside the alphabet, `lengthError` when the text does not
   * decode to exactly four bytes, and otherwise the little-endian value.
   */
  function Decode(s: string, lengthError: Error): (r: Result<u32>)
  {
    match ZBase32.DecodeString(s)
    case Err(e) => Err(e)
    case Ok(bytes) => if |bytes| != 4 then Err(lengthError) else Ok(Uint32(bytes))
  }

  /** An encoding is seven characters of the alphabet. */
  lemma EncodeShape(v: u32)
    ensures |Encode(v)| == 7
    ensures ZBase32.AllInAlphabet(Encode(v))
  {
    ZBase32.EncodeShape(PutUint32(v));
  }

  /** Decoding an encoding gives the value back, whatever the length error. */
  lemma RoundTrip(v: u32, lengthError: Error)
    ensures Decode(Encode(v), lengthError) == Ok(v)
  {
    ZBase32.RoundTrip(PutUint32(v));
    Uint32OfPutUint32(v);
  }

  /** Different values have different encodings. */
  lemma EncodeInjective(v: u32, w: u32)
    requires Encode(v) == Encode(w)
    ensures v == w
  {
    RoundTrip(v, ErrInvalidStringLength);
    RoundTrip(w, ErrInvalidStringLength);
  }

  /**
   * Decoding succeeds exactly on seven alphabet characters; a character
   * outside the alphabet is reported first, a wrong length otherwise.
   */
  lemma DecodeCases(s: string, lengthError: Error)
    ensures Decode(s, lengthError).Ok? <==> |s| == 7 && ZBase32.AllInAlphabet(s)
    ensures !ZBase32.AllInAlphabet(s) ==> Decode(s, lengthError) == Err(ErrCorruptInput)
    ensures ZBase32.AllInAlphabet(s) && |s| != 7 ==> Decode(s, lengthError) == Err(lengthError)
  {
    ZBase32.DecodeStringShape(s);
  }

  /** The seven quintets of a 32-bit string, the last one padded with three zero bits. */
  lemma Quintets32(bits: seq<ZBase32.Bit>)
    requires |bits| == 32
    ensures ZBase32.BitsToQuintets(bits) == [
      ZBase32.FromBits(bits[0..5]), ZBase32.FromBits(bits[5..10]), ZBase32.FromBits(bits[10..15]),
      ZBase32.FromBits(bits[15..20]), ZBase32.FromBits(bits[20..25]), ZBase32.FromBits(bits[25..30]),
      ZBase32.FromBits(bits[30..] + ZBase32.Zeros(3))]
  {
    var b5, b10, b15, b20, b25, b30 := bits[5..], bits[10..], bits[15..], bits[20..], bits[25..], bits[30..];
    assert b5[..5] == bits[5..10] && b5[5..] == b10;
    assert b10[..5] == bits[10..15] && b10[5..] == b15;
    assert b15[..5] == bits[15..20] && b15[5..] == b20;
    assert b20[..5] == bits[20..25] && b20[5..] == b25;
    assert b25[..5] == bits[25..30] && b25[5..] == b30;
    assert ZBase32.BitsToQuintets(b30) == [ZBase32.FromBits(b30 + ZBase32.Zeros(3))];
    assert ZBase32.BitsToQuintets(b25) == [ZBase32.FromBits(bits[25..30])] + ZBase32.BitsToQuintets(b30);
    assert ZBase32.BitsToQuintets(b20) == [ZBase32.FromBits(bits[20..25])] + ZBase32.BitsToQuintets(b25);
    assert ZBase32.BitsToQuintets(b15) == [ZBase32.FromBits(bits[15..20])] + ZBase32.BitsToQuintets(b20);
    assert ZBase32.BitsToQuintets(b10) == [ZBase32.FromBits(bits[10..15])] + ZBase32.BitsToQuintets(b15);
    assert ZBase32.BitsToQuintets(b5) == [ZBase32.FromBits(bits[5..10])] + ZBase32.BitsToQuintets(b10);
    assert ZBase32.BitsToQuintets(bits) == [ZBase32.FromBits(bits[0..5])] + ZBase32.BitsToQuintets(b5);
  }

  /** The seven characters of seven quintets. */
  lemma Symbols7(qs: seq<ZBase32.Quintet>)
    requires |qs| == 7
    ensures ZBase32.Symbols(qs) == [
      ZBase32.Alphabet[qs[0]], ZBase32.Alphabet[qs[1]], ZBase32.Alphabet[qs[2]], ZBase32.Alphabet[qs[3]],
      ZBase32.Alphabet[qs[4]], ZBase32.Alphabet[qs[5]], ZBase32.Alphabet[qs[6]]]
  {
    assert ZBase32.Symbols(qs[6..]) == [ZBase32.Alphabet[qs[6]]] + ZBase32.Symbols(qs[7..]);
    assert ZBase32.Symbols(qs[5..]) == [ZBase32.Alphabet[qs[5]]] + ZBase32.Symbols(qs[6..]);
    assert ZBase32.Symbols(qs[4..]) == [ZBase32.Alphabet[qs[4]]] + ZBase32.Symbols(qs[5..]);
    assert ZBase32.Symbols(qs[3..]) == [ZBase32.Alphabet[qs[3]]] + ZBase32.Symbols(qs[4..]);
    assert ZBase32.Symbols(qs[2..]) == [ZBase32.Alphabet[qs[2]]] + ZBase32.Symbols(qs[3..]);
    assert ZBase32.Symbols(qs[1..]) == [ZBase32.Alphabet[qs[1]]] + ZBase32.Symbols(qs[2..]);
  }

  /** The 32 bits of four bytes. */
  lemma Bits4(b: seq<byte>)
    requires |b| == 4
    ensures ZBase32.BytesToBits(b)
      == ZBase32.ToBits(b[0], 8) + ZBase32.ToBits(b[1], 8) + ZBase32.ToBits(b[2], 8) + ZBase32.ToBits(b[3], 8)
  {
    assert ZBase32.BytesToBits(b[3..]) == ZBase32.ToBits(b[3], 8) + ZBase32.BytesToBits(b[4..]);
    assert ZBase32.BytesToBits(b[2..]) == ZBase32.ToBits(b[2], 8) + ZBase32.BytesToBits(b[3..]);
    assert ZBase32.BytesToBits(b[1..]) == ZBase32.ToBits(b[1], 8) + ZBase32.BytesToBits(b[2..]);
  }

  lemma ZeroBytesBits()
    ensures ZBase32.BytesToBits([0, 0, 0, 0]) == ZBase32.Zeros(32)
  {
    assert ZBase32.ToBits(0, 8) == [0, 0, 0, 0, 0, 0, 0, 0];
    Bits4([0, 0, 0, 0]);
  }

  lemma ZeroBitsQuintets()
    ensures ZBase32.BitsToQuintets(ZBase32.Zeros(32)) == [0, 0, 0, 0, 0, 0, 0]
  {
    var bits := ZBase32.Zeros(32);
    var zero := ZBase32.ToBits(0, 5);
    assert zero == [0, 0, 0, 0, 0];
    Quintets32(bits);
    assert bits[0..5] == zero && bits[5..10] == zero && bits[10..15] == zero;
    assert bits[15..20] == zero && bits[20..25] == zero && bits[25..30] == zero;
    assert bits[30..] + ZBase32.Zeros(3) == zero;
    ZBase32.FromToBits(0, 5);
  }

  /** 0 encodes as "yyyyyyy": 32 zero bits are seven zero quintets. */
  lemma EncodeZero()
    ensures Encode(0) == "yyyyyyy"
  {
    assert PutUint32(0) == [0, 0, 0, 0];
    ZeroBytesBits();
    ZeroBitsQuintets();
    Symbols7([0, 0, 0, 0, 0, 0, 0]);
  }

  function Ones(n: nat): (bits: seq<ZBase32.Bit>)
    ensures |bits| == n && forall i :: 0 <= i < n ==> bits[i] == 1
  {
    seq(n, _ => 1)
  }

  lemma MaxBytesBits()
    ensures ZBase32.BytesToBits([255, 255, 255, 255]) == Ones(32)
  {
    assert ZBase32.ToBits(255, 8) == [1, 1, 1, 1, 1, 1, 1, 1];
    Bits4([255, 255, 255, 255]);
  }

  lemma MaxBitsQuintets()
    ensures ZBase32.BitsToQuintets(Ones(32)) == [31, 31, 31, 31, 31, 31, 24]
  {
    var bits := Ones(32);
    var ones: seq<ZBase32.Bit> := [1, 1, 1, 1, 1];
    var last: seq<ZBase32.Bit> := [1, 1, 0, 0, 0];
    assert ZBase32.FromBits(ones) == 31 by {
      ZBase32.FromToBits(31, 5);
      assert ZBase32.ToBits(31, 5) == ones;
    }
    assert ZBase32.FromBits(last) == 24 by {
      ZBase32.FromToBits(24, 5);
      assert ZBase32.ToBits(24, 5) == last;
    }
    Quintets32(bits);
    assert bits[0..5] == ones && bits[5..10] == ones && bits[10..15] == ones;
    assert bits[15..20] == ones && bits[20..25] == ones && bits[25..30] == ones;
    assert bits[30..] + ZBase32.Zeros(3) == last;
  }

  /** 0xFFFFFFFF encodes as "999999a": six quintets 31 and a last one 11000 = 24. */
  lemma EncodeMax()
    ensures Encode(0xFFFF_FFFF) == "999999a"
  {
    assert PutUint32(0xFFFF_FFFF) == [255, 255, 255, 255];
    MaxBytesBits();
    MaxBitsQuintets();
    assert Encode(0xFFFF_FFFF) == ZBase32.Symbols([31, 31, 31, 31, 31, 31, 24]);
    Symbols7([31, 31, 31, 31, 31, 31, 24]);
  }

  /** "yyyyyyy" and "999999a" decode to 0 and 0xFFFFFFFF. */
  lemma DecodeExamples(lengthError: Error)
    ensures Decode("yyyyyyy", lengthError) == Ok(0)
    ensures Decode("999999a", lengthError) == Ok(0xFFFF_FFFF)
  {
    EncodeZero();
    RoundTrip(0, lengthError);
    EncodeMax();
    RoundTrip(0xFFFF_FFFF, lengthError);
  }

  /** "nre" decodes to one byte only. */
  lemma TooShortExample(lengthError: Error)
    ensures Decode("nre", lengthError) == Err(lengthError)
  {
    InAlphabet("nre");
    DecodeCases("nre", lengthError);
  }

  /** "nreoxsdsd" decodes to five bytes. */
  lemma TooLongExample(lengthError: Error)
    ensures Decode("nreoxsdsd", lengthError) == Err(lengthError)
  {
    InAlphabet("nreoxsdsd");
    DecodeCases("nreoxsdsd", lengthError);
  }

  /**
   * "nreoxsdsd2" fails on its last character: '2' is not in the alphabet, so
   * the decoder's error comes before any length check.
   */
  lemma InvalidLastCharacterExample(lengthError: Error)
    ensures Decode("nreoxsdsd2", lengthError) == Err(ErrCorruptInput)
  {
    NotInAlphabet("nreoxsdsd2", 9);
    DecodeCases("nreoxsdsd2", lengthError);
  }

  /** '[' is not a z-base-32 character. */
  lemma CorruptExample(lengthError: Error)
    ensures Decode("[][]", lengthError) == Err(ErrCorruptInput)
  {
    NotInAlphabet("[][]", 0);
    DecodeCases("[][]", lengthError);
  }

  /** Every character of `s` is in the alphabet when the decoding table knows it. */
  lemma InAlphabet(s: string)
    requires forall i :: 0 <= i < |s| ==> ZBase32.SymbolValue(s[i]).Some?
    ensures ZBase32.AllInAlphabet(s)
  {
    forall i | 0 <= i < |s| ensures s[i] in ZBase32.Alphabet {
      ZBase32.SymbolValueDefined(s[i]);
    }
  }

  /** A string with a character the decoding table does not know is not all alphabet. */
  lemma NotInAlphabet(s: string, i: nat)
    requires i < |s| && ZBase32.SymbolValue(s[i]).None?
    ensures !ZBase32.AllInAlphabet(s)
  {
    ZBase32.SymbolValueDefined(s[i]);
  }
}
