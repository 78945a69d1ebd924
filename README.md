# Personal HD Wallet: the mnemonic-to-master-key pipeline in Dafny

This project models the core of a small Python wallet tool. The tool turns
random entropy into a BIP-39 mnemonic phrase, stretches the phrase into a
64-byte seed ("From mnemonic to seed" in BIP-39), and derives the BIP-32
master private key and chain code from that seed ("Master key generation"
in BIP-32).

- `src/seedgen.py`, class `SeedGen`, does the following:
  - checks that the seed length is 12 or 24 words;
  - draws 128 or 256 bits when the passphrase is `None` or empty;
  - appends the first `len/32` bits of their SHA-256 digest;
  - looks each 11-bit group up in a 2048-word list and joins the words with single spaces;
  - runs PBKDF2-HMAC-SHA512 over the phrase with the salt `"mnemonic" + salt` and 2048 rounds, returning the result in hex.
- `src/hdwallet.py`, class `HDWallet`, counts the fields of `phrase.split(" ")` and builds a `SeedGen` with the phrase as its passphrase. It then decodes the hex seed and applies HMAC-SHA512 under the key `"Bitcoin seed"`. The hex digest is cut into a 64-digit private key and a 64-digit chain code.

The files are these.

- `wrappers.dfy`: `Option`, `Result`, and the two `ValueError`s the core raises.
- `bits.dfy`: binary digit strings, modelling Python's `bin()`, `str.zfill` and `int(s, 2)`, together with their arithmetic.
- `encoding.dfy`: bytes and their conversions:
  - `int.to_bytes(..., 'big')`;
  - `format(byte, '08b')`;
  - `bytes.hex()` and `bytes.fromhex()`, including its whitespace skipping;
  - `str.encode('utf-8')`.
- `text.dfy`: `str.join` and `str.split` on a one-character separator.
- `primitives.dfy`: what comes from outside. SHA-256, PBKDF2-HMAC-SHA512 and HMAC-SHA512 are function-typed parameters whose types promise only the output length (32, 64 and 64 bytes). `secrets.randbits` is a parameter `nat -> nat`. The word list is a sequence of 2048 strings.
- `seedgen.dfy`: the pure steps of `SeedGen` as functions with lemmas, and the object as a `class SeedGen`. During construction `__generate_seed` overwrites only the passphrase field, and `Create` then stores the seed; nothing changes after construction.
- `hdwallet.dfy`: `_create_master` as a function with lemmas, the whole wallet construction as `DeriveWallet`, and the object as a `class HDWallet`.

Python constructors that may raise become static `Create` methods returning a
`Result`. A plain `constructor Init` stores the fields, as the first lines of
each `__init__` do.

## Model

| member | source | states |
|---|---|---|
| Bits.Bin | src/seedgen.py:32 | `bin(n)[2:]` is a binary string whose base-2 value is `n`; it is `"0"` for zero and starts with `1` otherwise |
| Bits.ZFill | src/seedgen.py:32 | `zfill(width)` pads on the left with zeros up to the width, keeps a longer string as it is, and leaves the original as a suffix |
| Bits.ZFillValue | src/seedgen.py:32 | padding a binary string with zeros keeps it binary and keeps its value |
| Bits.ZFillBin | src/seedgen.py:32 | for `n < 2^w`, `bin(n)[2:].zfill(w)` is the unique `w`-bit binary string of value `n` |
| Bits.NatToBits | src/seedgen.py:32 | the fixed-width encoding has exactly `width` binary digits, and its value is `n` whenever `n` fits |
| Bits.NatToBitsOfBinToNat | src/seedgen.py:36 | re-encoding the value of a binary string at its own width gives the string back |
| Bits.BinaryUnique | src/seedgen.py:36 | two binary strings of equal length and equal value are equal |
| Bits.BinToNatAppend | src/seedgen.py:42 | the value of a concatenation is the first value shifted by the second length, plus the second value |
| Bits.BinToNat | src/seedgen.py:36 | `int(s, 2)` on a binary string: its value is below `2^len(s)`; `Bin`, `NatToBitsOfBinToNat` and `BinaryUnique` tie it to the encodings both ways |
| Bits.PrefixValue | src/seedgen.py:40 | the value of the first `k` bits is the whole value shifted right by the remaining bits |
| Encoding.ToBytesBE | src/seedgen.py:36 | `to_bytes(k, 'big')` of a number that fits gives `k` bytes whose big-endian value is the number |
| Encoding.ToBytesOfBytesToNat | src/seedgen.py:36 | encoding the big-endian value of bytes back to their length gives the same bytes |
| Encoding.ByteBits | src/seedgen.py:37 | `format(byte, '08b')` is 8 binary digits whose value is the byte |
| Encoding.ByteBitsIsFormat | src/seedgen.py:37 | `'08b'` is `bin()` without its prefix, zero-filled to 8 |
| Encoding.BytesToBits | src/seedgen.py:37 | the joined bit string has 8 bits per byte |
| Encoding.BytesToBitsBinary | src/seedgen.py:37 | the joined bit string holds only `0` and `1` |
| Encoding.BytesToBitsValue | src/seedgen.py:37 | the base-2 value of the joined bits is the big-endian value of the bytes |
| Encoding.BytesToBitsAt | src/seedgen.py:37 | bits `[8i, 8i+8)` are byte `i` in `'08b'`, most significant bit first |
| Encoding.Hex | src/seedgen.py:28 | `bytes.hex()` gives two lower-case hex digits per byte |
| Encoding.FromHexOfHex | src/hdwallet.py:21 | `bytes.fromhex(b.hex()) == b` for all bytes `b` |
| Encoding.HexOfFromHex | src/hdwallet.py:21 | lower-case hex text of even length always decodes, and encoding the result gives the same text |
| Encoding.FromHex | src/hdwallet.py:21 | `bytes.fromhex`, skipping ASCII whitespace before a pair and refusing anything else; described by `FromHexOfHex` and `HexOfFromHex` |
| Encoding.HexAppend | src/hdwallet.py:27-30 | the hex of a concatenation is the concatenation of the hexes |
| Encoding.HexSplit | src/hdwallet.py:29-30 | cutting the hex after `2k` digits is cutting the bytes after `k` |
| Encoding.Utf8Encode | src/seedgen.py:28 | a UTF-8 encoding is at least as long as the text |
| Encoding.Utf8Append | src/seedgen.py:28 | encoding a concatenation is concatenating the encodings |
| Encoding.Utf8Ascii | src/seedgen.py:28 | an ASCII text encodes to one byte per character, equal to its code point |
| Encoding.Utf8OfAscii | src/hdwallet.py:23 | an ASCII text encodes to the byte sequence of its code points |
| Text.Split | src/hdwallet.py:12 | `s.split(sep)` gives one field more than there are separators; no field holds the separator; joining the fields with the separator gives `s` back |
| Text.Join | src/seedgen.py:51 | `' '.join(words)`; `SplitJoin` states that splitting undoes it, and `Split` that joining undoes splitting |
| Text.SplitJoin | src/seedgen.py:51 | splitting a separator-free, non-empty list of words, once joined, gives the words back |
| Seedgen.GenerateEntropy | src/seedgen.py:30-32 | the entropy is binary, at least `bit_length` long, and its value is the random integer; when that integer is below `2^bit_length` it is exactly the `bit_length`-bit encoding of it |
| Seedgen.PackEntropy | src/seedgen.py:36 | `(len+7)//8` bytes whose big-endian value is `int(entropy_bits, 2)` |
| Seedgen.PackRoundTrip | src/seedgen.py:36 | unpacking the bytes to `len` bits gives the entropy back, bit for bit when the length is a whole number of bytes |
| Seedgen.Checksum | src/seedgen.py:35-40 | the checksum has `len//32` bits (capped at the digest's 256) and equals the digest's value shifted right by the bits not taken |
| Seedgen.GenerateChecksum | src/seedgen.py:34-42 | the result is binary, the entropy followed by exactly the checksum |
| Seedgen.MnemonicLength | src/seedgen.py:36-42 | for 128 or 256 bits: 16 or 32 packed bytes; 132 or 264 mnemonic bits, that is 12 or 24 groups of 11 |
| Seedgen.ChecksumTopBits | src/seedgen.py:37-40 | the checksum is the top 4 bits of the first digest byte for 128 bits, and that whole byte for 256 |
| Seedgen.Window | src/seedgen.py:51 | the 11 bits from position `i`, cut short at the end of the string; `WordIndicesWindows` states that index `k` is the value of window `11k` |
| Seedgen.WordIndices | src/seedgen.py:51 | one index per started 11-bit group, each below 2048 |
| Seedgen.WordIndicesWindows | src/seedgen.py:51 | index `k` is `int(mnemonic[11k:11k+11], 2)`, with Python's clamped slice |
| Seedgen.Reencode | src/seedgen.py:51 | the re-encoding has 11 bits per index |
| Seedgen.WindowRoundTrip | src/seedgen.py:51 | re-encoding each index as 11 bits and concatenating recovers the mnemonic |
| Seedgen.LookupWords | src/seedgen.py:51 | word `k` is the list entry at index `k`, one word per index |
| Seedgen.PhraseWords | src/seedgen.py:51 | one word per started 11-bit group, each from the list |
| Seedgen.PhraseWordAt | src/seedgen.py:51 | word `k` is the list entry at the value of bits `[11k, 11k+11)` |
| Seedgen.Phrase | src/seedgen.py:51 | the phrase text, the words joined by single spaces; `PhraseSplits` states that splitting it gives the words back, and `GeneratedMnemonic` that it becomes the passphrase |
| Seedgen.PhraseSplits | src/seedgen.py:51 | when no listed word holds a space, splitting the phrase on spaces gives its words back, one per group |
| Seedgen.EntropyBitLength | src/seedgen.py:31 | 128 bits for 12 words and 256 otherwise; `GeneratedMnemonic` states the entropy length for both accepted lengths |
| Seedgen.EffectivePassphrase | src/seedgen.py:23-26 | the passphrase `__generate_seed` uses; `SuppliedPassphraseKept` states that a non-empty one is kept, and `GeneratedMnemonic` that a `None` or empty one becomes the generated phrase |
| Seedgen.SeedHex | src/seedgen.py:28 | the seed text is 128 lower-case hex digits |
| Seedgen.DeriveSeed | src/seedgen.py:19-28 | an error exactly when the length is not 12 or 24, and then the length error; otherwise 128 lower-case hex digits |
| Seedgen.SeedHexDecodes | src/seedgen.py:28 | the seed text decodes to exactly the PBKDF2 output over the UTF-8 passphrase and salt with 2048 iterations |
| Seedgen.SuppliedPassphraseKept | src/seedgen.py:23-28 | a non-empty passphrase is used unchanged, and the result depends on neither the random source nor the word list |
| Seedgen.MnemonicLayout | src/seedgen.py:34-51 | 128 or 256 entropy bits give a mnemonic of 12 or 24 words that re-encodes to itself |
| Seedgen.GeneratedMnemonic | src/seedgen.py:23-32 | with no passphrase, and a random integer in range, the entropy has 128 or 256 bits of that value. The mnemonic starts with it. The phrase has `seed_length` words, the groups re-encode to the mnemonic, and the phrase becomes the passphrase |
| Seedgen.SaltBytes | src/seedgen.py:9 | the salt bytes PBKDF2 sees are the eight ASCII bytes of `"mnemonic"` followed by the caller's salt in UTF-8 |
| Seedgen.SeedGen.Init | src/seedgen.py:7-11 | the fields hold the length, `"mnemonic" + salt`, the passphrase and the stored iterations |
| Seedgen.SeedGen.Create | src/seedgen.py:7-13 | construction fails exactly for a length other than 12 or 24, with the length error. On success the object is fresh and valid, the fields are stored, and passphrase and seed are those `DeriveSeed` defines |
| Seedgen.SeedGen.FinalHashSeed | src/seedgen.py:15-17 | the seed property is 128 hex digits that decode to 64 bytes |
| Seedgen.SeedGen.GenerateSeed | src/seedgen.py:19-28 | a bad length raises before anything changes. Otherwise the passphrase becomes the effective passphrase (a generated phrase when the passphrase is `None` or empty), and the result is the PBKDF2 hex over it and the stored salt |
| Seedgen.SeedGen.GeneratePhrase | src/seedgen.py:49-51 | the passphrase becomes the phrase of the mnemonic |
| Hdwallet.BitcoinSeedKeyIsUtf8 | src/hdwallet.py:23 | `"Bitcoin seed".encode('utf-8')` is the 12-byte key used |
| Hdwallet.WordCount | src/hdwallet.py:12 | the word count is the number of spaces plus one, so empty fields count |
| Hdwallet.WordCountOfJoin | src/hdwallet.py:12 | words free of spaces, joined by single spaces, count as many words as there are |
| Hdwallet.EmptyPhraseRejected | src/hdwallet.py:12-17 | the empty phrase counts one field, which the length guard refuses |
| Hdwallet.MasterKeys | src/hdwallet.py:20-31 | an error exactly when the seed text is not hex. Otherwise two halves of 64 digits that together are the hex HMAC-SHA512 digest under the key, over the decoded seed |
| Hdwallet.MasterKeyBytes | src/hdwallet.py:20-31 | the private key is the hex of digest bytes `[0, 32)` and the chain code of `[32, 64)`; each decodes back to those bytes |
| Hdwallet.DeriveWallet | src/hdwallet.py:11-31 | the whole of `HDWallet.__init__` as a value; described by `WalletErrors`, `WalletClosedForm`, `WalletDeterministic` and `GeneratedPhraseRestores` |
| Hdwallet.WalletErrors | src/hdwallet.py:11-18 | a wallet is refused exactly when the phrase has neither 12 nor 24 fields, with the length error; the hex decode never fails |
| Hdwallet.WalletClosedForm | src/hdwallet.py:11-31 | an accepted phrase is non-empty. The pair is the hex of the two halves of `HMAC-SHA512("Bitcoin seed", PBKDF2(phrase, "mnemonic" + salt, 2048))` |
| Hdwallet.WalletDeterministic | src/hdwallet.py:11-18 | the same phrase and salt give the same pair or the same error, whatever the random source and word list |
| Hdwallet.GeneratedPhraseCount | src/hdwallet.py:12 | a phrase `SeedGen` generates from space-free words counts `seed_length` fields |
| Hdwallet.GeneratedPhraseRestores | src/hdwallet.py:11-18 | when no listed word holds a space and the random integer is below `2^bit_length`, a wallet from a phrase `SeedGen` generated and the same salt is accepted, whatever random source it gets, and runs on exactly the seed `SeedGen` derived |
| Hdwallet.HDWallet.Init | src/hdwallet.py:13 | the SeedGen is stored |
| Hdwallet.HDWallet.CreateMaster | src/hdwallet.py:20-31 | on a constructed SeedGen, the result is the pair `MasterKeys` defines for its seed, in lower-case hex |
| Hdwallet.HDWallet.Create | src/hdwallet.py:11-18 | construction fails exactly for a phrase of neither 12 nor 24 fields, with the length error. On success the wallet and its SeedGen are fresh and valid. The SeedGen holds the word count, the phrase, `"mnemonic" + salt`, the default 100000 iterations and the seed `SeedHex` defines for the phrase and that salt, and the keys are `DeriveWallet`'s pair |

## Left out

- Reading the word list from `src/wordlist.txt` (`src/seedgen.py:44-47`) is file I/O. The list is a parameter of 2048 strings instead.
- `secrets.randbits` is a CSPRNG. It is a parameter `RandBits = nat -> nat`. Its documented range `[0, 2^k)` is a hypothesis of the lemmas that need it (`GeneratedMnemonic`, `GeneratedPhraseCount`, `GeneratedPhraseRestores`) rather than part of the type.
- That no listed word contains a space is a hypothesis of `PhraseSplits`, `GeneratedPhraseCount` and `GeneratedPhraseRestores`, not a property of the list type. A listed word with a space would change the `split(" ")` count at `src/hdwallet.py:12`, so a generated phrase would no longer restore.
- Seedgen.SeedGen.Create: takes every argument explicitly. The defaults of `SeedGen.__init__` (`seed_length=12`, `salt=""`, `passphrase=None`) are not modelled; the only default the core relies on, `iterations=100000`, is `DefaultIterations`, which `HDWallet.Create` passes.
- SHA-256, PBKDF2-HMAC-SHA512 and HMAC-SHA512 are foreign library calls. They are parameters that promise only their output length.
- The mnemonic decode/validate direction does not exist in the code and is not modelled. The window round trip (`WindowRoundTrip`) is the inverse the code supports.
- The `iterations` argument is stored (`src/seedgen.py:11`) and never used. PBKDF2 always runs 2048 rounds (`SeedIterations`).
- The unused `ABC`/`abstractmethod` imports are not modelled.
- Seedgen.SeedGen.Init: stores `""` as the seed. Python computes the seed inside `__init__`; in the model `Create` fills it in straight after, so no caller sees the placeholder.
- Hdwallet.HDWallet.CreateMaster: requires a constructed SeedGen, because its seed is always valid hex and `bytes.fromhex` cannot fail there. The `ValueError` branch of the decode is modelled in `MasterKeys`.
- `str.encode('utf-8')` raises `UnicodeEncodeError` on a lone surrogate, which a Python `str` can hold. A Dafny `char` is a Unicode scalar value and cannot hold one, so the model has no such error path at `src/seedgen.py:28`.
- Exceptions are `Result` values: the `ValueError` for a bad length is `Err(InvalidSeedLength)`, and a `fromhex` failure is `Err(InvalidHex)`. Python's message text is not modelled.
