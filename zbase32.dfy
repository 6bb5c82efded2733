/**
 * z-base-32, Zooko Wilcox-O'Hearn's "human-oriented base-32 encoding", as the
 * three short-code codecs call it through `zbase32.StdEncoding`: the bits of
 * the input bytes are taken most significant first, cut into groups of five
 * (the last group padded with zero bits), and every group is written as one
 * character of a 32-character alphabet. There is no padding character.
 * Decoding reverses this and keeps as many whole bytes as the 5-bit groups
 * supply (5 * |s| / 8); the bits left over are dropped.
 */
module ZBase32 {
  import opened Model

  type Bit = b: int | 0 <= b < 2

  /** The value of one z-base-32 character. */
  type Quintet = q: int | 0 <= q < 32

  const Alphabet: string := "ybndrfg8ejkmcpqxot1uwisza345h769"

  function Pow2(n: nat): (r: nat)
    ensures r >= 1
  {
    if n == 0 then 1 else 2 * Pow2(n - 1)
  }

  /** The `width` low bits of `v`, most significant first. */
  function ToBits(v: nat, width: nat): (bits: seq<Bit>)
    ensures |bits| == width
  {
    if width == 0 then [] else ToBits(v / 2, width - 1) + [v % 2]
  }

  /** The number written by `bits`, most significant bit first. */
  function FromBits(bits: seq<Bit>): (v: nat)
    ensures v < Pow2(|bits|)
  {
    if bits == [] then 0 else 2 * FromBits(bits[..|bits| - 1]) + bits[|bits| - 1]
  }

  function Zeros(n: nat): (bits: seq<Bit>)
    ensures |bits| == n && forall i :: 0 <= i < n ==> bits[i] == 0
  {
    seq(n, _ => 0)
  }

  lemma {:induction false} FromToBits(v: nat, width: nat)
    requires v < Pow2(width)
    ensures FromBits(ToBits(v, width)) == v
  {
    if width > 0 {
      FromToBits(v / 2, width - 1);
      assert ToBits(v, width)[..width - 1] == ToBits(v / 2, width - 1);
    }
  }

  lemma {:induction false} ToFromBits(bits: seq<Bit>)
    ensures ToBits(FromBits(bits), |bits|) == bits
  {
    if bits != [] {
      var init := bits[..|bits| - 1];
      ToFromBits(init);
      assert bits == init + [bits[|bits| - 1]];
    }
  }

  /** The bits of `src`, eight per byte, most significant first. */
  function BytesToBits(src: seq<byte>): (bits: seq<Bit>)
    ensures |bits| == 8 * |src|
  {
    if src == [] then [] else ToBits(src[0], 8) + BytesToBits(src[1..])
  }

  /** The whole bytes that `bits` holds; fewer than eight bits left over are dropped. */
  function BitsToBytes(bits: seq<Bit>): (dst: seq<byte>)
    ensures |dst| == |bits| / 8
  {
    if |bits| < 8 then [] else [FromBits(bits[..8])] + BitsToBytes(bits[8..])
  }

  /** `bits` cut into groups of five, the last group padded with zero bits. */
  function BitsToQuintets(bits: seq<Bit>): (qs: seq<Quintet>)
    ensures |qs| == (|bits| + 4) / 5
  {
    if bits == [] then []
    else if |bits| < 5 then [FromBits(bits + Zeros(5 - |bits|))]
    else [FromBits(bits[..5])] + BitsToQuintets(bits[5..])
  }

  /** The five bits of every quintet, in order. */
  function QuintetsToBits(qs: seq<Quintet>): (bits: seq<Bit>)
    ensures |bits| == 5 * |qs|
  {
    if qs == [] then [] else ToBits(qs[0], 5) + QuintetsToBits(qs[1..])
  }

  /** The character of each quintet. */
  function Symbols(qs: seq<Quintet>): (s: string)
    ensures |s| == |qs|
  {
    if qs == [] then [] else [Alphabet[qs[0]]] + Symbols(qs[1..])
  }

  /** The decoding table: the value of an alphabet character, None for any other character. */
  function SymbolValue(c: char): Option<Quintet> {
    match c
    case 'y' => Some(0)  case 'b' => Some(1)  case 'n' => Some(2)  case 'd' => Some(3)
    case 'r' => Some(4)  case 'f' => Some(5)  case 'g' => Some(6)  case '8' => Some(7)
    case 'e' => Some(8)  case 'j' => Some(9)  case 'k' => Some(10) case 'm' => Some(11)
    case 'c' => Some(12) case 'p' => Some(13) case 'q' => Some(14) case 'x' => Some(15)
    case 'o' => Some(16) case 't' => Some(17) case '1' => Some(18) case 'u' => Some(19)
    case 'w' => Some(20) case 'i' => Some(21) case 's' => Some(22) case 'z' => Some(23)
    case 'a' => Some(24) case '3' => Some(25) case '4' => Some(26) case '5' => Some(27)
    case 'h' => Some(28) case '7' => Some(29) case '6' => Some(30) case '9' => Some(31)
    case _ => None
  }

  /** The decoding table inverts the alphabet. */
  lemma {:induction false} SymbolValueOfAlphabet(q: Quintet)
    ensures SymbolValue(Alphabet[q]) == Some(q)
  {
  }

  /** The decoding table knows exactly the characters of the alphabet. */
  lemma {:induction false} SymbolValueDefined(c: char)
    ensures SymbolValue(c).Some? <==> c in Alphabet
    ensures SymbolValue(c).Some? ==> Alphabet[SymbolValue(c).value] == c
  {
    if c in Alphabet {
      var k :| 0 <= k < |Alphabet| && Alphabet[k] == c;
      SymbolValueOfAlphabet(k);
    }
  }

  /** The values of the characters of `s`, or None at the first character outside the alphabet. */
  function DecodeSymbols(s: string): (r: Option<seq<Quintet>>)
    ensures r.Some? ==> |r.value| == |s|
  {
    if s == [] then Some([])
    else match SymbolValue(s[0])
      case None => None
      case Some(q) =>
        match DecodeSymbols(s[1..])
        case None => None
        case Some(rest) => Some([q] + rest)
  }

  predicate AllInAlphabet(s: string) {
    forall i :: 0 <= i < |s| ==> s[i] in Alphabet
  }

  /** Encoding.EncodeToString. */
  function EncodeToString(src: seq<byte>): (s: string)
  {
    Symbols(BitsToQuintets(BytesToBits(src)))
  }

  /** Encoding.DecodeString: fails on any character outside the alphabet. */
  function DecodeString(s: string): (r: Result<seq<byte>>)
  {
    match DecodeSymbols(s)
    case None => Err(ErrCorruptInput)
    case Some(qs) => Ok(BitsToBytes(QuintetsToBits(qs)))
  }

  /** An encoding is (8n + 4) / 5 characters long, all of them from the alphabet. */
  lemma EncodeShape(src: seq<byte>)
    ensures |EncodeToString(src)| == (8 * |src| + 4) / 5
    ensures AllInAlphabet(EncodeToString(src))
  {
    SymbolsInAlphabet(BitsToQuintets(BytesToBits(src)));
  }

  lemma {:induction false} SymbolsInAlphabet(qs: seq<Quintet>)
    ensures AllInAlphabet(Symbols(qs))
  {
    if qs != [] {
      SymbolsInAlphabet(qs[1..]);
      var s := Symbols(qs);
      forall i | 0 <= i < |s| ensures s[i] in Alphabet {
        if i > 0 { assert s[i] == Symbols(qs[1..])[i - 1]; }
      }
    }
  }

  lemma {:induction false} DecodeSymbolsSome(s: string)
    ensures DecodeSymbols(s).Some? <==> AllInAlphabet(s)
  {
    if s != [] {
      DecodeSymbolsSome(s[1..]);
      SymbolValueDefined(s[0]);
      if AllInAlphabet(s[1..]) && s[0] in Alphabet {
        forall i | 0 <= i < |s| ensures s[i] in Alphabet {
          if i > 0 { assert s[i] == s[1..][i - 1]; }
        }
      }
      if AllInAlphabet(s) {
        forall i | 0 <= i < |s| - 1 ensures s[1..][i] in Alphabet {
          assert s[1..][i] == s[i + 1];
        }
      }
    }
  }

  /** DecodeString fails exactly when some character is outside the alphabet,
      and otherwise yields 5 * |s| / 8 bytes. */
  lemma DecodeStringShape(s: string)
    ensures DecodeString(s).Err? <==> !AllInAlphabet(s)
    ensures DecodeString(s).Err? ==> DecodeString(s).error == ErrCorruptInput
    ensures DecodeString(s).Ok? ==> |DecodeString(s).value| == 5 * |s| / 8
  {
    DecodeSymbolsSome(s);
  }

  lemma {:induction false} DecodeSymbolsOfSymbols(qs: seq<Quintet>)
    ensures DecodeSymbols(Symbols(qs)) == Some(qs)
  {
    if qs != [] {
      DecodeSymbolsOfSymbols(qs[1..]);
      var s := Symbols(qs);
      assert s[1..] == Symbols(qs[1..]);
      SymbolValueOfAlphabet(qs[0]);
      assert qs == [qs[0]] + qs[1..];
    }
  }

  /** Regrouping into quintets and back gives the bits followed by fewer than five zero bits. */
  lemma {:induction false} QuintetsRoundTrip(bits: seq<Bit>)
    ensures var out := QuintetsToBits(BitsToQuintets(bits));
      && |bits| <= |out| < |bits| + 5
      && out[..|bits|] == bits
      && forall i :: |bits| <= i < |out| ==> out[i] == 0
  {
    if bits == [] {
    } else if |bits| < 5 {
      var padded := bits + Zeros(5 - |bits|);
      ToFromBits(padded);
      assert QuintetsToBits(BitsToQuintets(bits)) == padded;
    } else {
      QuintetsRoundTrip(bits[5..]);
      ToFromBits(bits[..5]);
      var rest := QuintetsToBits(BitsToQuintets(bits[5..]));
      var out := QuintetsToBits(BitsToQuintets(bits));
      assert out == bits[..5] + rest;
      assert out[..|bits|] == bits[..5] + rest[..|bits| - 5];
      assert bits == bits[..5] + bits[5..];
      forall i | |bits| <= i < |out| ensures out[i] == 0 {
        assert out[i] == rest[i - 5];
      }
    }
  }

  /** Bytes survive a trip through bits, whatever fewer than eight bits follow them. */
  lemma {:induction false} BitsToBytesRoundTrip(src: seq<byte>, tail: seq<Bit>)
    requires |tail| < 8
    ensures BitsToBytes(BytesToBits(src) + tail) == src
  {
    if src != [] {
      var bits := BytesToBits(src) + tail;
      assert bits[..8] == ToBits(src[0], 8);
      assert bits[8..] == BytesToBits(src[1..]) + tail;
      FromToBits(src[0], 8);
      BitsToBytesRoundTrip(src[1..], tail);
    }
  }

  /** Decoding an encoding gives back the bytes. */
  lemma RoundTrip(src: seq<byte>)
    ensures DecodeString(EncodeToString(src)) == Ok(src)
  {
    var bits := BytesToBits(src);
    var qs := BitsToQuintets(bits);
    DecodeSymbolsOfSymbols(qs);
    QuintetsRoundTrip(bits);
    var out := QuintetsToBits(qs);
    assert out == bits + out[|bits|..];
    BitsToBytesRoundTrip(src, out[|bits|..]);
  }
}
