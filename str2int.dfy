/**
 * str2int.ZBase32Encoder: EncodeToString turns a `uint32` into its
 * seven-character code and DecodeString turns a code back; a code of the
 * wrong length is reported as "invalid string length".
 */
module Str2Int {
  import opened Model
  import ShortCode
  import ZBase32

  /** EncodeToString: never fails, and DecodeString undoes it. */
  function EncodeToString(value: u32): (r: Result<string>)
    ensures r.Ok?
    ensures |r.value| == 7 && ZBase32.AllInAlphabet(r.value)
    ensures DecodeString(r.value) == Ok(value)
  {
    ShortCode.EncodeShape(value);
    ShortCode.RoundTrip(value, ErrInvalidStringLength);
    Ok(ShortCode.Encode(value))
  }

  /** DecodeString: succeeds exactly on seven alphabet characters. */
  function DecodeString(str: string): (r: Result<u32>)
    ensures r.Ok? <==> |str| == 7 && ZBase32.AllInAlphabet(str)
    ensures !ZBase32.AllInAlphabet(str) ==> r == Err(ErrCorruptInput)
    ensures ZBase32.AllInAlphabet(str) && |str| != 7 ==> r == Err(ErrInvalidStringLength)
  {
    ShortCode.DecodeCases(str, ErrInvalidStringLength);
    ShortCode.Decode(str, ErrInvalidStringLength)
  }

  /** The cases of str2int/zbase32_encoder_test.go. */
  lemma TestVectors()
    ensures EncodeToString(0) == Ok("yyyyyyy")
    ensures EncodeToString(0xFFFF_FFFF) == Ok("999999a")
    ensures DecodeString("yyyyyyy") == Ok(0)
    ensures DecodeString("999999a") == Ok(0xFFFF_FFFF)
    ensures DecodeString("nre") == Err(ErrInvalidStringLength)
    ensures DecodeString("nreoxsdsd2") == Err(ErrCorruptInput)
    ensures DecodeString("[][]") == Err(ErrCorruptInput)
  {
    ShortCode.EncodeZero();
    ShortCode.EncodeMax();
    ShortCode.DecodeExamples(ErrInvalidStringLength);
    ShortCode.TooShortExample(ErrInvalidStringLength);
    ShortCode.InvalidLastCharacterExample(ErrInvalidStringLength);
    ShortCode.CorruptExample(ErrInvalidStringLength);
  }
}
