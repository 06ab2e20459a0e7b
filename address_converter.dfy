/**
 * `bech32_to_evm`: turn a Bech32 account address (such as "infinite1...")
 * into its EVM form, "0x" followed by the 20 account bytes in lowercase hex.
 *
 * The pipeline: strip surrounding whitespace; refuse an empty address; decode
 * the Bech32 string; regroup its 5-bit groups into bytes without padding;
 * require exactly 20 bytes; format them. Each refusal is its own error kind,
 * and they are tried in that order.
 *
 * The Bech32 checksum decoder of the `bech32` package is outside this model:
 * it is a parameter, any function from the stripped string to an optional
 * (human-readable prefix, 5-bit groups) pair. The regrouping is the
 * BIP-173 reference `convertbits`, modelled in module Bip173.
 */
module AddressConverter {
  import opened Wrappers
  import opened PyStrip
  import opened Hex
  import opened Bits
  import opened Bip173

  /** The human-readable prefix of the network's account addresses. The conversion never compares against it. */
  const Bech32HrpInfinite: string := "infinite"

  const ExpectedAccountBytes: nat := 20

  /** What a successful Bech32 decode yields: the human-readable prefix and the data part as 5-bit groups. */
  datatype Decoded = Decoded(hrp: string, data: seq<int>)

  /** The external Bech32 decoder; `None` when the string is not valid Bech32. */
  type Bech32Decoder = string -> Option<Decoded>

  datatype ConversionError =
    | EmptyAddress            // nothing but whitespace
    | InvalidBech32Address    // the decoder refused the string
    | InvalidBech32Data       // the 5-bit groups do not regroup into whole bytes
    | WrongLength(actual: nat) // the address holds `actual` bytes instead of 20

  /** `0x` followed by 40 lowercase hexadecimal digits. */
  predicate IsEvmAddress(h: string)
  {
    && |h| == 2 + 2 * ExpectedAccountBytes
    && h[..2] == "0x"
    && forall i :: 2 <= i < |h| ==> IsHexDigit(h[i])
  }

  /** Python's `bytes(...)` of values already known to fit in a byte. */
  function AsBytes(xs: seq<int>): seq<byte>
    requires InRange(xs, 8)
  {
    assert Pow2(8) == 256;
    xs
  }

  /**
   * The regrouping `convertbits(data, 5, 8, False)` followed by `bytes(...)`.
   * It succeeds only on 5-bit data, and then every input bit lands in a byte
   * except fewer than 5 zero bits at the end. `AccountData` is its inverse in
   * both directions (`AccountData`'s contract and `AccountBytesInverse`).
   */
  function AccountBytes(data: seq<int>): (r: Option<seq<byte>>)
    ensures r.Some? ==> InRange(data, 5)
    ensures r.Some? ==> |r.value| == |data| * 5 / 8 && |data| * 5 % 8 < 5
  {
    match ConvertBits(data, 5, 8, false)
    case None => None
    case Some(data8) =>
      NoPadLength(data, 5, 8);
      Some(AsBytes(data8))
  }

  function Bech32ToEvm(bech32Addr: string, decode: Bech32Decoder): (r: Result<string, ConversionError>)
    ensures r.Success? ==> IsEvmAddress(r.value)
  {
    var addr := Strip(bech32Addr);
    if addr == [] then Failure(EmptyAddress)
    else match decode(addr)
      case None => Failure(InvalidBech32Address)
      case Some(Decoded(_, data5)) =>
        match AccountBytes(data5)
        case None => Failure(InvalidBech32Data)
        case Some(raw) =>
          if |raw| != ExpectedAccountBytes then Failure(WrongLength(|raw|))
          else Success("0x" + Encode(raw))
  }

  /** A byte string is a sequence of 8-bit values. */
  lemma BytesInRange(b: seq<byte>)
    ensures InRange(b, 8)
  {
    assert Pow2(8) == 256;
  }

  /**
   * The 5-bit data part a Bech32 encoder carries for the account bytes `b`,
   * `convertbits(b, 8, 5, True)`: the partner the conversion inverts.
   */
  function AccountData(b: seq<byte>): (d: seq<int>)
    ensures InRange(d, 5)
    ensures AccountBytes(d) == Some(b)
  {
    BytesInRange(b);
    RegroupRoundTrip(b, 8, 5);
    ConvertBits(b, 8, 5, true).value
  }

  /**
   * The converse of `AccountData`'s contract: data the conversion regroups
   * into bytes is exactly the encoder's data for those bytes, so the
   * regrouping loses nothing.
   */
  lemma AccountBytesInverse(data: seq<int>)
    requires AccountBytes(data).Some?
    ensures AccountData(AccountBytes(data).value) == data
  {
    NoPadRoundTrip(data, 5, 8);
  }

  /** Removing surrounding whitespace first changes nothing: the conversion strips it itself. */
  lemma StripInvariant(s: string, decode: Bech32Decoder)
    ensures Bech32ToEvm(s, decode) == Bech32ToEvm(Strip(s), decode)
  {
    StripIdempotent(s);
  }

  /** The address is refused as empty exactly when it is all whitespace, whatever the decoder. */
  lemma EmptyIffBlank(s: string, decode: Bech32Decoder)
    ensures Bech32ToEvm(s, decode) == Failure(EmptyAddress) <==> AllSpace(s)
  {
    StripEmpty(s);
  }

  /** The address is refused as invalid Bech32 exactly when it is not blank and the decoder refuses its stripped form. */
  lemma InvalidAddressIff(s: string, decode: Bech32Decoder)
    ensures Bech32ToEvm(s, decode) == Failure(InvalidBech32Address) <==> !AllSpace(s) && decode(Strip(s)).None?
  {
    StripEmpty(s);
  }

  /** A group count whose bits leave fewer than 5 over in the last byte gives 20 bytes exactly when it is 32. */
  lemma TwentyBytes(n: nat)
    requires n * 5 % 8 < 5
    ensures n * 5 / 8 == ExpectedAccountBytes <==> n == 32
  {
  }

  /**
   * Once the stripped address decodes, the outcome depends only on its 5-bit
   * data, never on the prefix: the data is refused when it does not regroup
   * into bytes; otherwise it has the wrong length unless it is 32 groups,
   * and the length reported is the number of whole bytes it carries.
   */
  lemma DecodedOutcome(s: string, decode: Bech32Decoder, hrp: string, data: seq<int>)
    requires !AllSpace(s) && decode(Strip(s)) == Some(Decoded(hrp, data))
    ensures Bech32ToEvm(s, decode) == Failure(InvalidBech32Data) <==> ConvertBits(data, 5, 8, false).None?
    ensures Bech32ToEvm(s, decode).Failure? && Bech32ToEvm(s, decode).error.WrongLength?
      <==> ConvertBits(data, 5, 8, false).Some? && |data| != 32
    ensures Bech32ToEvm(s, decode).Failure? && Bech32ToEvm(s, decode).error.WrongLength?
      ==> Bech32ToEvm(s, decode).error.actual == |data| * 5 / 8
    ensures Bech32ToEvm(s, decode).Success? <==> |data| == 32 && InRange(data, 5)
  {
    StripEmpty(s);
    if ConvertBits(data, 5, 8, false).Some? {
      NoPadLength(data, 5, 8);
      TwentyBytes(|data|);
    } else if |data| == 32 && InRange(data, 5) {
      ExactRoundTrip(data, 5, 8);
    }
  }

  /**
   * The decoded prefix is never compared with `Bech32HrpInfinite`: two
   * addresses whose stripped forms decode to the same data under any two
   * prefixes convert alike.
   */
  lemma HrpIgnored(s1: string, decode1: Bech32Decoder, s2: string, decode2: Bech32Decoder,
                   hrp1: string, hrp2: string, data: seq<int>)
    requires !AllSpace(s1) && decode1(Strip(s1)) == Some(Decoded(hrp1, data))
    requires !AllSpace(s2) && decode2(Strip(s2)) == Some(Decoded(hrp2, data))
    ensures Bech32ToEvm(s1, decode1) == Bech32ToEvm(s2, decode2)
  {
    StripEmpty(s1);
    StripEmpty(s2);
  }

  /**
   * A successful result is `0x` and then the lowercase hex of the regrouped
   * 20 bytes; those bytes hex-decode back out of it, and re-encoding them as
   * Bech32 data gives exactly the data that was decoded.
   */
  lemma SuccessValue(s: string, decode: Bech32Decoder, hrp: string, data: seq<int>)
    requires !AllSpace(s) && decode(Strip(s)) == Some(Decoded(hrp, data))
    requires Bech32ToEvm(s, decode).Success?
    ensures var h := Bech32ToEvm(s, decode).value;
      && h[..2] == "0x"
      && AccountBytes(data).Some?
      && Hex.Decode(h[2..]) == AccountBytes(data)
      && |AccountBytes(data).value| == ExpectedAccountBytes
      && AccountData(AccountBytes(data).value) == data
  {
    StripEmpty(s);
    var raw := AccountBytes(data).value;
    var h := Bech32ToEvm(s, decode).value;
    assert h == "0x" + Encode(raw);
    assert h[2..] == Encode(raw);
    DecodeEncode(raw);
    DecodedOutcome(s, decode, hrp, data);
    ExactRoundTrip(data, 5, 8);
  }

  /**
   * Any byte payload, Bech32-encoded under any prefix (not only
   * `Bech32HrpInfinite`), converts to its hex when it is 20 bytes long and is
   * refused with its length otherwise.
   */
  lemma AccountRoundTrip(b: seq<byte>, hrp: string, s: string, decode: Bech32Decoder)
    requires !AllSpace(s) && decode(Strip(s)) == Some(Decoded(hrp, AccountData(b)))
    ensures Bech32ToEvm(s, decode)
      == if |b| == ExpectedAccountBytes then Success("0x" + Encode(b)) else Failure(WrongLength(|b|))
  {
    StripEmpty(s);
  }
}
