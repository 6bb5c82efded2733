/**
 * urlencoder.ZBase32Encoder: Shorten turns a `uint32` into its seven-character
 * code and Expand turns a code back; a code of the wrong length is reported
 * as "invalid string length".
 */
module UrlEncoder {
  import opened Model
  import ShortCode
  import ZBase32

  /** Shorten: never fails, and Expand undoes it. */
  function Shorten(id: u32): (r: Result<string>)
    ensures r.Ok?
    ensures |r.value| == 7 && ZBase32.AllInAlphabet(r.value)
    ensures Expand(r.value) == Ok(id)
  {
    ShortCode.EncodeShape(id);
    ShortCode.RoundTrip(id, ErrInvalidStringLength);
    Ok(ShortCode.Encode(id))
  }

  /** Expand: succeeds exactly on seven alphabet characters. */
  function Expand(shortURL: string): (r: Result<u32>)
    ensures r.Ok? <==> |shortURL| == 7 && ZBase32.AllInAlphabet(shortURL)
    ensures !ZBase32.AllInAlphabet(shortURL) ==> r == Err(ErrCorruptInput)
    ensures ZBase32.AllInAlphabet(shortURL) && |shortURL| != 7 ==> r == Err(ErrInvalidStringLength)
  {
    ShortCode.DecodeCases(shortURL, ErrInvalidStringLength);
    ShortCode.Decode(shortURL, ErrInvalidStringLength)
  }

  /** Distinct ids get distinct codes, so a code names one id. */
  lemma ShortenInjective(a: u32, b: u32)
    requires Shorten(a) == Shorten(b)
    ensures a == b
  {
    assert Expand(Shorten(a).value) == Ok(a);
  }
}
