/** src/seedgen.py: entropy, checksum and mnemonic phrase (BIP-39,
    "Generating the mnemonic"), then the PBKDF2 seed in hex
    ("From mnemonic to seed"). The pure steps are functions; the SeedGen
    object, whose passphrase field is overwritten when a mnemonic is
    generated, is a class. */
module Seedgen {
  import opened Wrappers
  import opened Bits
  import opened Encoding
  import opened Text
  import opened Primitives

  /** Prepended to every caller salt. */
  const SaltPrefix: string := "mnemonic"

  /** The iteration count PBKDF2 is always called with. */
  const SeedIterations: nat := 2048

  /** The default of the iterations parameter, which is stored but never used. */
  const DefaultIterations: int := 100000

  /** Bits per word of the phrase. */
  const WordBits: nat := 11

  predicate ValidSeedLength(seedLength: int)
  {
    seedLength == 12 || seedLength == 24
  }

  /** bit_length: 128 for a 12-word phrase, 256 otherwise. */
  function EntropyBitLength(seedLength: int): nat
  {
    if seedLength == 12 then 128 else 256
  }

  /** __generate_entropy: the random integer of bit_length bits, written in binary
      without a prefix and padded on the left with zeros to bit_length digits. */
  function GenerateEntropy(seedLength: int, randbits: RandBits): (e: string)
    ensures IsBinary(e) && BinToNat(e) == randbits(EntropyBitLength(seedLength))
    ensures |e| >= EntropyBitLength(seedLength)
    ensures randbits(EntropyBitLength(seedLength)) < Pow2(EntropyBitLength(seedLength)) ==>
      e == NatToBits(randbits(EntropyBitLength(seedLength)), EntropyBitLength(seedLength))
  {
    var bitLength := EntropyBitLength(seedLength);
    var r := randbits(bitLength);
    ZFillValue(Bin(r), bitLength);
    assert r < Pow2(bitLength) ==> ZFill(Bin(r), bitLength) == NatToBits(r, bitLength) by {
      if r < Pow2(bitLength) { ZFillBin(r, bitLength); }
    }
    ZFill(Bin(r), bitLength)
  }

  /** Every bit string fits in the whole number of bytes that holds its bits. */
  lemma PackFits(e: string)
    ensures BinToNat(e) < Pow256((|e| + 7) / 8)
  {
    Pow2Monotone(|e|, 8 * ((|e| + 7) / 8));
  }

  /** The packing step of __generate_checksum: the base-2 value of the entropy as
      big-endian bytes, as many as hold its bits. Parsing refuses an empty or non-binary string. */
  function PackEntropy(e: string): (bs: seq<byte>)
    requires IsBinary(e) && e != []
    ensures |bs| == (|e| + 7) / 8 && BytesToNat(bs) == BinToNat(e)
  {
    PackFits(e);
    ToBytesBE(BinToNat(e), (|e| + 7) / 8)
  }

  lemma WholeBytes(n: nat)
    requires n % 8 == 0
    ensures 8 * ((n + 7) / 8) == n
  {
    var k := n / 8;
    assert n == 8 * k;
    DivOfShift(k, 8, 7);
    assert n + 7 == k * 8 + 7;
  }

  /** Unpacking the packed bytes gives the entropy back: as a number re-expanded to
      len(e) bits, and, when len(e) is a whole number of bytes, bit for bit. */
  lemma PackRoundTrip(e: string)
    requires IsBinary(e) && e != []
    ensures NatToBits(BytesToNat(PackEntropy(e)), |e|) == e
    ensures |e| % 8 == 0 ==> BytesToBits(PackEntropy(e)) == e
  {
    var bs := PackEntropy(e);
    NatToBitsOfBinToNat(e);
    if |e| % 8 == 0 {
      assert 8 * ((|e| + 7) / 8) == |e| by {
        WholeBytes(|e|);
      }
      BytesToBitsBinary(bs);
      BytesToBitsValue(bs);
      BinaryUnique(BytesToBits(bs), e);
    }
  }

  /** The checksum of __generate_checksum: the first len/32 bits of the digest's bit
      string, that is, the digest's value shifted right by the bits left out. */
  function Checksum(e: string, sha256: Sha256): (c: string)
    requires IsBinary(e) && e != []
    ensures |c| == Min(|e| / 32, 256) && IsBinary(c)
    ensures BinToNat(c) == BytesToNat(sha256(PackEntropy(e))) / Pow2(256 - |c|)
  {
    var digest := sha256(PackEntropy(e));
    var digestBits := BytesToBits(digest);
    var n := Min(|e| / 32, |digestBits|);
    BytesToBitsBinary(digest);
    BytesToBitsValue(digest);
    PrefixValue(digestBits, n);
    assert IsBinary(digestBits[..n]) by {
      forall i | 0 <= i < n ensures digestBits[..n][i] == '0' || digestBits[..n][i] == '1' {
        assert digestBits[..n][i] == digestBits[i];
      }
    }
    digestBits[..n]
  }

  /** __generate_checksum: the entropy followed by its checksum. */
  function GenerateChecksum(e: string, sha256: Sha256): (m: string)
    requires IsBinary(e) && e != []
    ensures IsBinary(m) && |m| == |e| + Min(|e| / 32, 256)
    ensures m[..|e|] == e && m[|e|..] == Checksum(e, sha256)
  {
    var c := Checksum(e, sha256);
    assert IsBinary(e + c) by {
      forall i | 0 <= i < |e + c| ensures (e + c)[i] == '0' || (e + c)[i] == '1' {
        if i >= |e| { assert (e + c)[i] == c[i - |e|]; }
      }
    }
    assert (e + c)[..|e|] == e && (e + c)[|e|..] == c;
    e + c
  }

  /** For the two supported strengths: 16 or 32 packed bytes, and a mnemonic of 132 or 264
      bits, that is 12 or 24 groups of 11 bits. */
  lemma MnemonicLength(e: string, sha256: Sha256)
    requires IsBinary(e) && (|e| == 128 || |e| == 256)
    ensures |PackEntropy(e)| == |e| / 8
    ensures var m := GenerateChecksum(e, sha256);
      && |m| == |e| + |e| / 32
      && |m| == WordBits * (if |e| == 128 then 12 else 24)
  {
    assert |e| / 32 < 256 && (|e| + 7) / 8 == |e| / 8;
  }

  /** For the two supported strengths the checksum is the top 4 bits of the first digest
      byte, or that whole byte. */
  lemma ChecksumTopBits(e: string, sha256: Sha256)
    requires IsBinary(e) && (|e| == 128 || |e| == 256)
    ensures var m, d := GenerateChecksum(e, sha256), sha256(PackEntropy(e));
      BinToNat(m[|e|..]) == if |e| == 128 then d[0] as nat / 16 else d[0] as nat
  {
    var n := if |e| == 128 then 4 else 8;
    assert |e| / 32 == n;
    var d := sha256(PackEntropy(e));
    var digestBits := BytesToBits(d);
    var c := Checksum(e, sha256);
    assert c == digestBits[..n];
    var first := ByteBits(d[0]);
    assert digestBits[..8] == first by {
      BytesToBitsAt(d, 0);
    }
    assert c == first[..n];
    assert BinToNat(c) == d[0] as nat / Pow2(8 - n) by {
      PrefixValue(first, n);
    }
    if n == 4 {
      assert Pow2(4) == 16;
    } else {
      assert Pow2(0) == 1;
    }
  }

  /** The 11 bits from position i, cut short at the end of the string. */
  function Window(m: string, i: nat): string
    requires i <= |m|
  {
    m[i..Min(i + WordBits, |m|)]
  }

  /** A suffix of a bit string is a bit string. */
  lemma BinarySuffix(m: string, k: nat)
    requires IsBinary(m) && k <= |m|
    ensures IsBinary(m[k..])
  {
    forall i | 0 <= i < |m| - k ensures m[k..][i] == '0' || m[k..][i] == '1' {
      assert m[k..][i] == m[i + k];
    }
  }

  /** The word indices of __generate_phrase: the base-2 value of each 11-bit group, from
      the left: one index per started group, each a valid position in the word list. */
  function WordIndices(m: string): (idx: seq<nat>)
    requires IsBinary(m)
    ensures |idx| == (|m| + 10) / 11
    ensures forall k :: 0 <= k < |idx| ==> idx[k] < 2048
    decreases |m|
  {
    if m == [] then []
    else if |m| <= 11 then
      Pow2Monotone(|m|, 11);
      [BinToNat(m)]
    else
      BinarySuffix(m, 11);
      assert BinToNat(m[..11]) < 2048;
      [BinToNat(m[..11])] + WordIndices(m[11..])
  }

  /** Index k is the value of the k-th window of the mnemonic, exactly as the
      comprehension slices it. */
  lemma {:induction false} WordIndicesWindows(m: string)
    requires IsBinary(m)
    ensures forall k :: 0 <= k < |WordIndices(m)| ==> WordIndices(m)[k] == BinToNat(Window(m, 11 * k))
    decreases |m|
  {
    var idx := WordIndices(m);
    if |m| > 11 {
      var tail := m[11..];
      BinarySuffix(m, 11);
      WordIndicesWindows(tail);
      forall k | 0 <= k < |idx| ensures idx[k] == BinToNat(Window(m, 11 * k)) {
        if k > 0 {
          assert idx[k] == WordIndices(tail)[k - 1];
          assert Window(m, 11 * k) == Window(tail, 11 * (k - 1));
        }
      }
    } else if m != [] {
      assert Window(m, 0) == m;
    }
  }

  /** The 11-bit encodings of indices, concatenated. */
  function Reencode(idx: seq<nat>): (bits: string)
    ensures |bits| == WordBits * |idx|
  {
    if idx == [] then [] else NatToBits(idx[0], WordBits) + Reencode(idx[1..])
  }

  /** Re-encoding every index as 11 bits and concatenating recovers the mnemonic bits. */
  lemma {:induction false} WindowRoundTrip(m: string)
    requires IsBinary(m) && |m| % 11 == 0
    ensures Reencode(WordIndices(m)) == m
    decreases |m|
  {
    if m != [] {
      var head, tail := m[..11], m[11..];
      BinarySuffix(m, 11);
      if |m| == 11 {
        assert head == m;
      }
      assert IsBinary(head) by {
        forall i | 0 <= i < |head| ensures head[i] == '0' || head[i] == '1' {
          assert head[i] == m[i];
        }
      }
      assert NatToBits(BinToNat(head), WordBits) == head by {
        NatToBitsOfBinToNat(head);
      }
      WindowRoundTrip(tail);
      var idx := WordIndices(m);
      assert idx[0] == BinToNat(head) && idx[1..] == WordIndices(tail);
      assert m == head + tail;
    }
  }

  /** wordlist[i] for each index i, in order. */
  function LookupWords(idx: seq<nat>, wordlist: WordList): (words: seq<string>)
    requires forall k :: 0 <= k < |idx| ==> idx[k] < 2048
    ensures |words| == |idx|
    ensures forall k :: 0 <= k < |words| ==> words[k] == wordlist[idx[k]]
  {
    if idx == [] then [] else [wordlist[idx[0]]] + LookupWords(idx[1..], wordlist)
  }

  /** The words of the phrase: one per 11-bit group, each from the list. */
  function PhraseWords(m: string, wordlist: WordList): (words: seq<string>)
    requires IsBinary(m)
    ensures |words| == (|m| + 10) / 11
    ensures forall k :: 0 <= k < |words| ==> words[k] in wordlist
  {
    LookupWords(WordIndices(m), wordlist)
  }

  /** Word k of a whole number of groups is the list entry at the value of bits [11k, 11k + 11). */
  lemma PhraseWordAt(m: string, wordlist: WordList, k: nat)
    requires IsBinary(m) && |m| % 11 == 0 && k < |m| / 11
    ensures PhraseWords(m, wordlist)[k] == wordlist[BinToNat(m[11 * k..11 * k + 11])]
  {
    WordIndicesWindows(m);
    assert Window(m, 11 * k) == m[11 * k..11 * k + 11];
  }

  /** The text of __generate_phrase: the words joined with single spaces. */
  function Phrase(m: string, wordlist: WordList): string
    requires IsBinary(m)
  {
    Join(PhraseWords(m, wordlist), " ")
  }

  /** Splitting the phrase on spaces gives its words back, when no listed word holds a space. */
  lemma PhraseSplits(m: string, wordlist: WordList)
    requires IsBinary(m) && m != []
    requires forall j :: 0 <= j < |wordlist| ==> ' ' !in wordlist[j]
    ensures Split(Phrase(m, wordlist), ' ') == PhraseWords(m, wordlist)
    ensures |Split(Phrase(m, wordlist), ' ')| == (|m| + 10) / 11
  {
    var words := PhraseWords(m, wordlist);
    forall k | 0 <= k < |words| ensures ' ' !in words[k] {
      var j :| 0 <= j < |wordlist| && wordlist[j] == words[k];
    }
    SplitJoin(words, ' ');
  }

  /** The state __generate_seed leaves: the passphrase used and the hex seed. */
  datatype SeedState = SeedState(passphrase: string, finalHashSeed: string)

  /** The passphrase __generate_seed uses: a missing or empty one is replaced by a fresh mnemonic phrase. */
  function EffectivePassphrase(seedLength: int, passphrase: Option<string>, randbits: RandBits,
                               wordlist: WordList, sha256: Sha256): string
  {
    if passphrase.None? || |passphrase.value| == 0 then
      Phrase(GenerateChecksum(GenerateEntropy(seedLength, randbits), sha256), wordlist)
    else passphrase.value
  }

  /** The result of __generate_seed: PBKDF2-HMAC-SHA512 over the UTF-8 passphrase and salt with 2048 rounds, in hex. */
  function SeedHex(passphrase: string, salt: string, lib: Library): (h: string)
    ensures |h| == 128 && IsLowerHex(h)
  {
    Hex(lib.pbkdf2HmacSha512(Utf8Encode(passphrase), Utf8Encode(salt), SeedIterations))
  }

  /** __generate_seed: the length guard first, then the optional mnemonic, then
      PBKDF2-HMAC-SHA512 over the passphrase and the stored salt with 2048 rounds, in hex. */
  function DeriveSeed(seedLength: int, storedSalt: string, passphrase: Option<string>, randbits: RandBits,
                      wordlist: WordList, lib: Library): (r: Result<SeedState, Error>)
    ensures r.Err? <==> !ValidSeedLength(seedLength)
    ensures r.Err? ==> r.error == InvalidSeedLength
    ensures r.Ok? ==> |r.value.finalHashSeed| == 128 && IsLowerHex(r.value.finalHashSeed)
  {
    if !ValidSeedLength(seedLength) then Err(InvalidSeedLength)
    else
      var p := EffectivePassphrase(seedLength, passphrase, randbits, wordlist, lib.sha256);
      Ok(SeedState(p, SeedHex(p, storedSalt, lib)))
  }

  /** The seed text decodes to exactly the PBKDF2 output, for whatever passphrase was used. */
  lemma SeedHexDecodes(seedLength: int, storedSalt: string, passphrase: Option<string>, randbits: RandBits,
                       wordlist: WordList, lib: Library)
    requires ValidSeedLength(seedLength)
    ensures var st := DeriveSeed(seedLength, storedSalt, passphrase, randbits, wordlist, lib).value;
      FromHex(st.finalHashSeed) == Some(lib.pbkdf2HmacSha512(Utf8Encode(st.passphrase), Utf8Encode(storedSalt), SeedIterations))
  {
    var st := DeriveSeed(seedLength, storedSalt, passphrase, randbits, wordlist, lib).value;
    FromHexOfHex(lib.pbkdf2HmacSha512(Utf8Encode(st.passphrase), Utf8Encode(storedSalt), SeedIterations));
  }

  /** A non-empty supplied passphrase is used as it is: no entropy is drawn, the word
      list is not read, and the seed depends on nothing but the passphrase and the salt. */
  lemma SuppliedPassphraseKept(seedLength: int, storedSalt: string, passphrase: string,
                               randbits: RandBits, wordlist: WordList,
                               otherRandbits: RandBits, otherWordlist: WordList, lib: Library)
    requires ValidSeedLength(seedLength) && passphrase != ""
    ensures DeriveSeed(seedLength, storedSalt, Some(passphrase), randbits, wordlist, lib).value.passphrase == passphrase
    ensures DeriveSeed(seedLength, storedSalt, Some(passphrase), randbits, wordlist, lib)
         == DeriveSeed(seedLength, storedSalt, Some(passphrase), otherRandbits, otherWordlist, lib)
  {
  }

  /** The mnemonic of 128 or 256 entropy bits is 12 or 24 words, and re-encoding the word
      indices as 11-bit groups gives the mnemonic back. */
  lemma MnemonicLayout(e: string, sha256: Sha256, wordlist: WordList)
    requires IsBinary(e) && (|e| == 128 || |e| == 256)
    ensures var m := GenerateChecksum(e, sha256);
      && |PhraseWords(m, wordlist)| == (if |e| == 128 then 12 else 24)
      && Reencode(WordIndices(m)) == m
  {
    MnemonicLength(e, sha256);
    var m := GenerateChecksum(e, sha256);
    if |e| == 128 {
      assert |m| == 132 && (|m| + 10) / 11 == 12;
    } else {
      assert |m| == 264 && (|m| + 10) / 11 == 24;
    }
    WindowRoundTrip(m);
  }

  /** Without a passphrase, the phrase used is the mnemonic of fresh entropy: the 128 or 256
      bits drawn, followed by their checksum, cut into 12 or 24 words from the list, whose
      indices re-encode to the mnemonic bits. */
  lemma GeneratedMnemonic(seedLength: int, storedSalt: string, passphrase: Option<string>, randbits: RandBits,
                          wordlist: WordList, lib: Library)
    requires ValidSeedLength(seedLength)
    requires passphrase.None? || passphrase == Some("")
    requires randbits(EntropyBitLength(seedLength)) < Pow2(EntropyBitLength(seedLength))
    ensures var e := GenerateEntropy(seedLength, randbits);
      && |e| == (if seedLength == 12 then 128 else 256)
      && BinToNat(e) == randbits(|e|)
    ensures var m := GenerateChecksum(GenerateEntropy(seedLength, randbits), lib.sha256);
      && m[..EntropyBitLength(seedLength)] == GenerateEntropy(seedLength, randbits)
      && |PhraseWords(m, wordlist)| == seedLength
      && Reencode(WordIndices(m)) == m
      && DeriveSeed(seedLength, storedSalt, passphrase, randbits, wordlist, lib).value.passphrase == Phrase(m, wordlist)
  {
    var e := GenerateEntropy(seedLength, randbits);
    assert |e| == EntropyBitLength(seedLength);
    MnemonicLayout(e, lib.sha256, wordlist);
  }

  /** The salt bytes PBKDF2 sees: the eight ASCII bytes of "mnemonic", then the caller's salt in UTF-8. */
  lemma SaltBytes(salt: string)
    ensures Utf8Encode(SaltPrefix + salt) == [109, 110, 101, 109, 111, 110, 105, 99] + Utf8Encode(salt)
  {
    Utf8Append(SaltPrefix, salt);
    Utf8OfAscii(SaltPrefix, [109, 110, 101, 109, 111, 110, 105, 99]);
  }

  class SeedGen {
    var seedLength: int
    var salt: string
    var passphrase: Option<string>
    var iterations: int
    var finalHashSeed: string

    /** A constructed SeedGen: an accepted length, a passphrase, and a seed of 64 bytes in hex. */
    ghost predicate Valid()
      reads this
    {
      && ValidSeedLength(seedLength)
      && passphrase.Some?
      && |finalHashSeed| == 128 && IsLowerHex(finalHashSeed)
    }

    /** The first assignments of __init__: the stored parameters; Create fills in the seed. */
    constructor Init(seedLength: int, salt: string, passphrase: Option<string>, iterations: int)
      ensures this.seedLength == seedLength && this.salt == SaltPrefix + salt
      ensures this.passphrase == passphrase && this.iterations == iterations
      ensures finalHashSeed == ""
    {
      this.seedLength := seedLength;
      this.salt := SaltPrefix + salt;
      this.passphrase := passphrase;
      this.iterations := iterations;
      this.finalHashSeed := "";
    }

    /** SeedGen(seed_length, salt, passphrase, iterations): construction runs
        __generate_seed and raises ValueError when it does. */
    static method Create(seedLength: int, salt: string, passphrase: Option<string>, iterations: int,
                         randbits: RandBits, wordlist: WordList, lib: Library) returns (r: Result<SeedGen, Error>)
      ensures r.Err? <==> !ValidSeedLength(seedLength)
      ensures r.Err? ==> r.error == InvalidSeedLength
      ensures r.Ok? ==> fresh(r.value) && r.value.Valid()
      ensures r.Ok? ==> (r.value.seedLength == seedLength && r.value.salt == SaltPrefix + salt
                         && r.value.iterations == iterations)
      ensures r.Ok? ==> (DeriveSeed(seedLength, SaltPrefix + salt, passphrase, randbits, wordlist, lib)
                         == Ok(SeedState(r.value.passphrase.value, r.value.finalHashSeed)))
    {
      var g := new SeedGen.Init(seedLength, salt, passphrase, iterations);
      var h := g.GenerateSeed(seedLength, randbits, wordlist, lib);
      if h.Err? {
        return Err(h.error);
      }
      g.finalHashSeed := h.value;
      r := Ok(g);
    }

    /** The final_hash_seed property: 128 hex characters that decode to 64 bytes. */
    function FinalHashSeed(): (h: string)
      reads this
      requires Valid()
      ensures |h| == 128 && FromHex(h).Some? && |FromHex(h).value| == 64
    {
      HexOfFromHex(finalHashSeed);
      finalHashSeed
    }

    /** __generate_seed(seed_length). */
    method GenerateSeed(seedLength: int, randbits: RandBits, wordlist: WordList, lib: Library)
      returns (r: Result<string, Error>)
      modifies this`passphrase
      ensures !ValidSeedLength(seedLength) ==> r == Err(InvalidSeedLength) && passphrase == old(passphrase)
      ensures ValidSeedLength(seedLength) ==>
        passphrase == Some(EffectivePassphrase(seedLength, old(passphrase), randbits, wordlist, lib.sha256))
      ensures ValidSeedLength(seedLength) ==> r == Ok(SeedHex(passphrase.value, salt, lib))
    {
      if seedLength != 12 && seedLength != 24 {
        return Err(InvalidSeedLength);
      }
      if passphrase.None? || |passphrase.value| == 0 {
        var entropyBits := GenerateEntropy(seedLength, randbits);
        var mnemonic := GenerateChecksum(entropyBits, lib.sha256);
        GeneratePhrase(mnemonic, wordlist);
      }
      var p := passphrase.value;
      return Ok(SeedHex(p, salt, lib));
    }

    /** __generate_phrase(mnemonic): the phrase replaces the passphrase. */
    method GeneratePhrase(mnemonic: string, wordlist: WordList)
      requires IsBinary(mnemonic)
      modifies this`passphrase
      ensures passphrase == Some(Phrase(mnemonic, wordlist))
    {
      passphrase := Some(Join(PhraseWords(mnemonic, wordlist), " "));
    }
  }
}
