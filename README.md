# Infinite address to EVM address conversion, in Dafny

This project models `bech32_to_evm`, the core of the Infinite Drive tool that
turns a Bech32 account address (`infinite1...`) into its EVM form (`0x` and 40
lowercase hexadecimal digits). The conversion is a fixed pipeline:

1. strip the surrounding whitespace, as Python's `str.strip()` does, and refuse an empty address;
2. decode the Bech32 string and refuse it if the decoder does;
3. regroup the 5-bit data groups into bytes with `convertbits(data, 5, 8, False)` and refuse the data if that fails;
4. require exactly 20 bytes, and report the actual count otherwise;
5. return `"0x"` followed by `bytes.hex()` of the 20 bytes.

Modules:

- `Wrappers`: `Option` and `Result`.
- `PyStrip`: `str.strip()` over the characters for which `str.isspace()` holds.
- `Hex`: `bytes.hex()` and its inverse.
- `Bits`: bit strings, `FromBits`/`ToBits`, the bit stream of a value sequence and its regrouping into chunks.
- `Bip173`: `convertbits` as the reference implementation of BIP-173 defines it. The Python `bech32` package ships that reference code. `ConvertBits` states what it computes, over bit strings. `ConvertBitsReference` is the reference's accumulator loop, proved equal to it. Its inner loop (`EmitGroups`) and its final padding step (`Flush`) are separate methods.
- `AddressConverter`: the constants `Bech32HrpInfinite` and `ExpectedAccountBytes`, the error kinds and `Bech32ToEvm`.

The Bech32 checksum decoder (`bech32.bech32_decode`) is a parameter of
`Bech32ToEvm`. It can be any function from the stripped string to an optional
pair of a prefix and 5-bit data. Every property below holds for every such
decoder. The four exceptions of the source become the error variants
`EmptyAddress`, `InvalidBech32Address`, `InvalidBech32Data` and
`WrongLength(actual)`.

## Model

| member | source | states |
|---|---|---|
| `AddressConverter.Bech32ToEvm` | tools/convert-infinite-address-to-evm/convert-infinite-address-to-evm.py:26-46 | A successful result is `0x` followed by exactly 40 lowercase hexadecimal digits, 42 characters in all. |
| `AddressConverter.StripInvariant` | tools/convert-infinite-address-to-evm/convert-infinite-address-to-evm.py:28 | The result depends on the input only through its stripped form: `f(s) == f(strip(s))`. |
| `AddressConverter.EmptyIffBlank` | tools/convert-infinite-address-to-evm/convert-infinite-address-to-evm.py:28-30 | For every decoder, the result is `EmptyAddress` if and only if the input is all whitespace. The decoder and the regrouping are never consulted in that case. |
| `AddressConverter.InvalidAddressIff` | tools/convert-infinite-address-to-evm/convert-infinite-address-to-evm.py:32-34 | The result is `InvalidBech32Address` if and only if the input is not blank and the decoder refuses its stripped form. |
| `AddressConverter.DecodedOutcome` | tools/convert-infinite-address-to-evm/convert-infinite-address-to-evm.py:36-44 | Once decoded, the outcome depends only on the 5-bit data. It is `InvalidBech32Data` if and only if `convertbits(data, 5, 8, False)` fails. It is `WrongLength` if and only if the regrouping succeeds and the data is not 32 groups long, and the length reported is the number of whole bytes, `5*len(data) // 8`. It is a success if and only if the data is 32 groups, all in 0..31. |
| `AddressConverter.SuccessValue` | tools/convert-infinite-address-to-evm/convert-infinite-address-to-evm.py:40-46 | On success the result starts with `0x`, and its hex part decodes back to the 20 regrouped bytes. Re-encoding those bytes as Bech32 data gives exactly the data that was decoded, so the EVM address determines it. |
| `AddressConverter.HrpIgnored` | tools/convert-infinite-address-to-evm/convert-infinite-address-to-evm.py:22-46 | The decoded prefix is never compared with `BECH32_HRP_INFINITE`. Two inputs that decode to the same data under any two prefixes give the same result. |
| `AddressConverter.AccountBytes` | tools/convert-infinite-address-to-evm/convert-infinite-address-to-evm.py:36-40 | `bytes(convertbits(data, 5, 8, False))` succeeds only on 5-bit data, and then yields `5*len(data) // 8` bytes with fewer than 5 bits left over. `AccountData` is its inverse in both directions (see `AccountData` and `AccountBytesInverse`), and `DecodedOutcome` says exactly when it succeeds with 20 bytes. |
| `AddressConverter.AccountData` | tools/convert-infinite-address-to-evm/convert-infinite-address-to-evm.py:36-40 | The Bech32 encoder's data for a byte string, `convertbits(b, 8, 5, True)`, holds 5-bit values. The conversion's regrouping and `bytes()` give `b` back from it. |
| `AddressConverter.AccountBytesInverse` | tools/convert-infinite-address-to-evm/convert-infinite-address-to-evm.py:36-40 | Whenever the conversion regroups 5-bit data into bytes, the Bech32 encoder's data for those bytes is that same data, so the regrouping loses nothing. |
| `AddressConverter.AccountRoundTrip` | tools/convert-infinite-address-to-evm/convert-infinite-address-to-evm.py:22-46 | Take any byte string, Bech32-encoded under any prefix. It converts to `"0x" + hex(b)` when it is 20 bytes long. Otherwise it is refused with `WrongLength` carrying its length. |
| `Bip173.ConvertBits` | tools/convert-infinite-address-to-evm/convert-infinite-address-to-evm.py:36 | `convertbits` per the BIP-173 reference. A success means every input value fits in `fromBits` bits and every output value fits in `toBits` bits, so `bytes()` never raises on line 40. |
| `Bip173.ConvertBitsReference` | tools/convert-infinite-address-to-evm/convert-infinite-address-to-evm.py:36 | The reference accumulator loop, with its masks and its final padding check, computes exactly `ConvertBits`. |
| `Bip173.EmitGroups` | tools/convert-infinite-address-to-evm/convert-infinite-address-to-evm.py:36 | The reference's inner loop leaves fewer than `toBits` bits pending and keeps the accumulator invariant: every complete group of the bits shifted in so far has been emitted, and the pending bits are the low bits of the accumulator. |
| `Bip173.Flush` | tools/convert-infinite-address-to-evm/convert-infinite-address-to-evm.py:36 | The reference's final step (pad the last group, or refuse leftover bits that make a whole input value or hold a one bit) yields exactly `Regroup` of the bits shifted in. |
| `Bip173.OutOfRange` | tools/convert-infinite-address-to-evm/convert-infinite-address-to-evm.py:36-38 | A data value that does not fit in `fromBits` bits makes `convertbits` fail, which the conversion reports as invalid data. |
| `Bip173.NoPadLength` | tools/convert-infinite-address-to-evm/convert-infinite-address-to-evm.py:36-41 | Without padding, a success yields `len(data)*fromBits // toBits` groups. Fewer than `fromBits` bits are left over. |
| `Bip173.PaddedRegroup` | tools/convert-infinite-address-to-evm/convert-infinite-address-to-evm.py:36 | With padding, regrouping always succeeds. The output groups serialise to the input bits followed by fewer than `toBits` zero bits. |
| `Bip173.RegroupDropsZeroPadding` | tools/convert-infinite-address-to-evm/convert-infinite-address-to-evm.py:36 | Without padding, whole groups followed by fewer zero bits than either width regroup to those groups. |
| `Bip173.RegroupRoundTrip` | tools/convert-infinite-address-to-evm/convert-infinite-address-to-evm.py:36 | Regrouping into narrower groups with padding and back without padding gives the original values. |
| `Bip173.NoPadRoundTrip` | tools/convert-infinite-address-to-evm/convert-infinite-address-to-evm.py:36 | Whenever regrouping into wider groups without padding succeeds, regrouping the result back with padding gives the original values. |
| `Bip173.ExactRegroup` | tools/convert-infinite-address-to-evm/convert-infinite-address-to-evm.py:36 | Bits that fill whole groups of both widths regroup exactly, with or without padding. |
| `Bip173.ExactRoundTrip` | tools/convert-infinite-address-to-evm/convert-infinite-address-to-evm.py:36 | When the bits fill whole wide groups, regrouping without padding and back with padding gives the original values. |
| `PyStrip.Strip` | tools/convert-infinite-address-to-evm/convert-infinite-address-to-evm.py:28 | The result neither starts nor ends with whitespace. It is the contiguous part of the input left after skipping the leading whitespace, and only whitespace surrounds it. |
| `PyStrip.StripUnique` | tools/convert-infinite-address-to-evm/convert-infinite-address-to-evm.py:28 | Stripping whitespace added around a string that has none at its ends gives that string back. |
| `PyStrip.StripIdempotent` | tools/convert-infinite-address-to-evm/convert-infinite-address-to-evm.py:28 | Stripping twice is stripping once. |
| `PyStrip.StripEmpty` | tools/convert-infinite-address-to-evm/convert-infinite-address-to-evm.py:28-29 | The stripped string is empty if and only if the input is all whitespace. |
| `Hex.HexDigit` | tools/convert-infinite-address-to-evm/convert-infinite-address-to-evm.py:46 | A nibble is written as a lowercase hexadecimal digit. |
| `Hex.HexDigitTable` | tools/convert-infinite-address-to-evm/convert-infinite-address-to-evm.py:46 | A nibble is written as the character at that position in `0123456789abcdef`. |
| `Hex.DigitValue` | tools/convert-infinite-address-to-evm/convert-infinite-address-to-evm.py:46 | A lowercase hexadecimal digit stands for the nibble that is written as that digit. |
| `Hex.Encode` | tools/convert-infinite-address-to-evm/convert-infinite-address-to-evm.py:46 | `bytes.hex()` gives two characters per byte, all lowercase hexadecimal digits. |
| `Hex.EncodeAt` | tools/convert-infinite-address-to-evm/convert-infinite-address-to-evm.py:46 | Character pair `i` (positions `2i` and `2i+1`) is the high and then the low nibble of byte `i`. |
| `Hex.Decode` | tools/convert-infinite-address-to-evm/convert-infinite-address-to-evm.py:46 | The inverse of `bytes.hex()`. A decoded string has two characters per byte. |
| `Hex.DecodeEncode` | tools/convert-infinite-address-to-evm/convert-infinite-address-to-evm.py:46 | Decoding the hex of a byte string gives the byte string back. |
| `Hex.EncodeDecode` | tools/convert-infinite-address-to-evm/convert-infinite-address-to-evm.py:46 | Encoding what a hex string decodes to gives that string back, so the lowercase hex form of a byte string is unique. |
| `Hex.DecodeDefined` | tools/convert-infinite-address-to-evm/convert-infinite-address-to-evm.py:46 | A string decodes if and only if it has an even number of characters, all lowercase hexadecimal digits. |

## Left out

- `main` (lines 49-64) is left out. It reads the command line or standard input, prints, and exits: process I/O around one call of `bech32_to_evm`.
- The import guard (lines 16-20) is left out. It concerns packaging and the environment, not the conversion.
- The internals of `bech32.bech32_decode` (alphabet, case rules, checksum, length limits) are left out. The `bech32` package is not part of this model, so the decoder is a parameter and every property holds for any decoder.
- `convertbits` is not modelled from the `bech32` package's own source, which is not part of this model. It is modelled from the BIP-173 reference implementation, which that package reproduces.
- `Bip173.ConvertBits` requires both widths to be positive. The reference code is only ever called with 5 and 8 here, and it does not define a regrouping into zero-bit groups.
- The exception messages are not modelled as text. Each is an error variant, and `WrongLength` carries the byte count that the message prints.
- `PyStrip.IsSpace` follows the whitespace set of `str.isspace()` in current CPython, fixed in the model. The Unicode database version it comes from is not modelled.
- The range error that `bytes()` can raise is not modelled as an error path. `Bip173.ConvertBits` proves every regrouped value fits in a byte, so that error cannot occur.
- Python strings are sequences of code points and Dafny's `char` is a Unicode scalar value. Lone surrogates, which Python allows in a `str`, are not modelled.
