/**
 * ZBase32LinkIDEncoder, the service's LinkIDEncoder: a link id as its
 * seven-character short code and back. A code of the wrong length is
 * reported as model.ErrDecodingShortURL.
 */
module LinkIdEncoder {
  import opened Model
  import ShortCode
  import ZBase32

  /** EncodeToString: never fails, and its code decodes back to the id. */
  function EncodeToString(id: LinkId): (r: Result<string>)
    ensures r.Ok?
    ensures |r.value| == 7 && ZBase32.AllInAlphabet(r.value)
    ensures DecodeFromString(r.value) == Ok(id)
  {
    ShortCode.EncodeShape(id);
    ShortCode.RoundTrip(id, ErrDecodingShortURL);
    Ok(ShortCode.Encode(id))
  }

  /** DecodeFromString: succeeds exactly on seven alphabet characters. */
  function DecodeFromString(str: string): (r: Result<LinkId>)
    ensures r.Ok? <==> |str| == 7 && ZBase32.AllInAlphabet(str)
    ensures !ZBase32.AllInAlphabet(str) ==> r == Err(ErrCorruptInput)
    ensures ZBase32.AllInAlphabet(str) && |str| != 7 ==> r == Err(ErrDecodingShortURL)
  {
    ShortCode.DecodeCases(str, ErrDecodingShortURL);
    ShortCode.Decode(str, ErrDecodingShortURL)
  }

  /** The cases of zbase32_link_id_encoder_test.go. */
  lemma TestVectors()
    ensures EncodeToString(0) == Ok("yyyyyyy")
    ensures EncodeToString(0xFFFF_FFFF) == Ok("999999a")
    ensures DecodeFromString("yyyyyyy") == Ok(0)
    ensures DecodeFromString("999999a") == Ok(0xFFFF_FFFF)
    ensures DecodeFromString("nre") == Err(ErrDecodingShortURL)
    ensures DecodeFromString("nreoxsdsd2") == Err(ErrCorruptInput)
    ensures DecodeFromString("[][]") == Err(ErrCorruptInput)
  {
    ShortCode.EncodeZero();
    ShortCode.EncodeMax();
    ShortCode.DecodeExamples(ErrDecodingShortURL);
    ShortCode.TooShortExample(ErrDecodingShortURL);
    ShortCode.InvalidLastCharacterExample(ErrDecodingShortURL);
    ShortCode.CorruptExample(ErrDecodingShortURL);
  }
}
