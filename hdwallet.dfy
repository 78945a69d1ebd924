/** src/hdwallet.py: a wallet restored from a phrase. The phrase's word count
    and the phrase itself go to SeedGen; the hex seed is decoded and fed to
    HMAC-SHA512 keyed with "Bitcoin seed" (BIP-32, "Master key generation"),
    and the hex digest is cut into the master private key and the chain code. */
module Hdwallet {
  import opened Wrappers
  import opened Bits
  import opened Encoding
  import opened Text
  import opened Primitives
  import opened Seedgen

  /** The HMAC key of the master key derivation. */
  const BitcoinSeed: string := "Bitcoin seed"

  /** The key as bytes: "Bitcoin seed" in ASCII. */
  const BitcoinSeedKey: seq<byte> := [66, 105, 116, 99, 111, 105, 110, 32, 115, 101, 101, 100]

  /** "Bitcoin seed".encode('utf-8') is the key above. */
  lemma BitcoinSeedKeyIsUtf8()
    ensures Utf8Encode(BitcoinSeed) == BitcoinSeedKey
  {
    Utf8OfAscii(BitcoinSeed, BitcoinSeedKey);
  }

  /** The seed length __init__ passes on: the number of fields of the phrase split at
      spaces. Every space cuts, so repeated, leading and trailing spaces add empty
      fields that are counted too. */
  function WordCount(phrase: string): (n: nat)
    ensures n == Occurrences(phrase, ' ') + 1
  {
    |Split(phrase, ' ')|
  }

  /** A phrase of words joined by single spaces counts its words. */
  lemma WordCountOfJoin(words: seq<string>)
    requires |words| >= 1
    requires forall k :: 0 <= k < |words| ==> ' ' !in words[k]
    ensures WordCount(Join(words, " ")) == |words|
  {
    SplitJoin(words, ' ');
  }

  /** The empty phrase is one empty field, which the length guard refuses. */
  lemma EmptyPhraseRejected()
    ensures WordCount("") == 1 && !ValidSeedLength(WordCount(""))
  {
  }

  /** _create_master on a seed text: decoding the hex (a ValueError on
      bad hex), HMAC-SHA512 of the seed bytes under the key "Bitcoin seed", and
      the hex digest cut at half its length. */
  function MasterKeys(seedHex: string, hmac: HmacSha512): (r: Result<(string, string), Error>)
    ensures r.Err? <==> FromHex(seedHex).None?
    ensures r.Err? ==> r.error == InvalidHex
    ensures r.Ok? ==> |r.value.0| == 64 && |r.value.1| == 64
    ensures r.Ok? ==> r.value.0 + r.value.1 == Hex(hmac(BitcoinSeedKey, FromHex(seedHex).value))
  {
    match FromHex(seedHex)
    case None => Err(InvalidHex)
    case Some(seed) =>
      var hashed := Hex(hmac(BitcoinSeedKey, seed));
      assert hashed[..|hashed| / 2] + hashed[|hashed| / 2..] == hashed;
      Ok((hashed[..|hashed| / 2], hashed[|hashed| / 2..]))
  }

  /** The private key is the hex of the first 32 digest bytes and the chain code
      the hex of the last 32, and each decodes back to those bytes. */
  lemma MasterKeyBytes(seedHex: string, hmac: HmacSha512)
    requires FromHex(seedHex).Some?
    ensures var d := hmac(BitcoinSeedKey, FromHex(seedHex).value);
      && MasterKeys(seedHex, hmac) == Ok((Hex(d[..32]), Hex(d[32..])))
      && FromHex(MasterKeys(seedHex, hmac).value.0) == Some(d[..32])
      && FromHex(MasterKeys(seedHex, hmac).value.1) == Some(d[32..])
  {
    var d := hmac(BitcoinSeedKey, FromHex(seedHex).value);
    HexSplit(d, 32);
    FromHexOfHex(d[..32]);
    FromHexOfHex(d[32..]);
  }

  /** HDWallet(phrase, salt) as a value: the word count of the phrase and the
      phrase as passphrase go to SeedGen (with the default iteration count,
      which the seed does not depend on), then _create_master runs on its seed. */
  function DeriveWallet(phrase: string, salt: string, randbits: RandBits, wordlist: WordList,
                        lib: Library): Result<(string, string), Error>
  {
    match DeriveSeed(WordCount(phrase), SaltPrefix + salt, Some(phrase), randbits, wordlist, lib)
    case Err(e) => Err(e)
    case Ok(st) => MasterKeys(st.finalHashSeed, lib.hmacSha512)
  }

  /** A wallet is refused exactly when its phrase does not have 12 or 24 fields,
      and the refusal is SeedGen's length error; the hex decode never fails. */
  lemma WalletErrors(phrase: string, salt: string, randbits: RandBits, wordlist: WordList, lib: Library)
    ensures DeriveWallet(phrase, salt, randbits, wordlist, lib).Err? <==> !ValidSeedLength(WordCount(phrase))
    ensures DeriveWallet(phrase, salt, randbits, wordlist, lib).Err? ==>
      DeriveWallet(phrase, salt, randbits, wordlist, lib).error == InvalidSeedLength
  {
    var s := DeriveSeed(WordCount(phrase), SaltPrefix + salt, Some(phrase), randbits, wordlist, lib);
    if s.Ok? {
      HexOfFromHex(s.value.finalHashSeed);
    }
  }

  /** The master pair of an accepted phrase, in closed form: with
      I = HMAC-SHA512("Bitcoin seed", PBKDF2-HMAC-SHA512(phrase, "mnemonic" + salt, 2048)),
      the private key is the hex of I[..32] and the chain code the hex of I[32..].
      The phrase is used as it is, so neither the random source nor the word list matters. */
  lemma WalletClosedForm(phrase: string, salt: string, randbits: RandBits, wordlist: WordList, lib: Library)
    requires ValidSeedLength(WordCount(phrase))
    ensures phrase != ""
    ensures var i := lib.hmacSha512(BitcoinSeedKey,
                                    lib.pbkdf2HmacSha512(Utf8Encode(phrase), Utf8Encode(SaltPrefix + salt), SeedIterations));
      DeriveWallet(phrase, salt, randbits, wordlist, lib) == Ok((Hex(i[..32]), Hex(i[32..])))
  {
    assert phrase != "";
    var st := DeriveSeed(WordCount(phrase), SaltPrefix + salt, Some(phrase), randbits, wordlist, lib).value;
    assert st.passphrase == phrase;
    SeedHexDecodes(WordCount(phrase), SaltPrefix + salt, Some(phrase), randbits, wordlist, lib);
    MasterKeyBytes(st.finalHashSeed, lib.hmacSha512);
  }

  /** Construction is deterministic: the same phrase and salt give the same
      master pair, or the same error, whatever the random source and word list. */
  lemma WalletDeterministic(phrase: string, salt: string, randbits: RandBits, wordlist: WordList,
                            otherRandbits: RandBits, otherWordlist: WordList, lib: Library)
    ensures DeriveWallet(phrase, salt, randbits, wordlist, lib)
         == DeriveWallet(phrase, salt, otherRandbits, otherWordlist, lib)
  {
    if ValidSeedLength(WordCount(phrase)) {
      WalletClosedForm(phrase, salt, randbits, wordlist, lib);
      WalletClosedForm(phrase, salt, otherRandbits, otherWordlist, lib);
    }
  }

  /** A phrase SeedGen generates, from words free of spaces, counts seedLength fields. */
  lemma GeneratedPhraseCount(seedLength: int, salt: string, randbits: RandBits, wordlist: WordList, lib: Library)
    requires ValidSeedLength(seedLength)
    requires randbits(EntropyBitLength(seedLength)) < Pow2(EntropyBitLength(seedLength))
    requires forall j :: 0 <= j < |wordlist| ==> ' ' !in wordlist[j]
    ensures WordCount(DeriveSeed(seedLength, salt, None, randbits, wordlist, lib).value.passphrase) == seedLength
  {
    var m := GenerateChecksum(GenerateEntropy(seedLength, randbits), lib.sha256);
    GeneratedMnemonic(seedLength, salt, None, randbits, wordlist, lib);
    PhraseSplits(m, wordlist);
  }

  /** Restoring from a generated phrase: SeedGen without a passphrase produces a
      phrase; when no listed word holds a space, a wallet built from that phrase
      and the same salt counts seedLength words, is accepted, and runs on the very
      seed SeedGen derived, whatever random source it is given. */
  lemma GeneratedPhraseRestores(seedLength: int, salt: string, randbits: RandBits, wordlist: WordList,
                                otherRandbits: RandBits, lib: Library)
    requires ValidSeedLength(seedLength)
    requires randbits(EntropyBitLength(seedLength)) < Pow2(EntropyBitLength(seedLength))
    requires forall j :: 0 <= j < |wordlist| ==> ' ' !in wordlist[j]
    ensures var st := DeriveSeed(seedLength, SaltPrefix + salt, None, randbits, wordlist, lib).value;
      && WordCount(st.passphrase) == seedLength
      && DeriveSeed(WordCount(st.passphrase), SaltPrefix + salt, Some(st.passphrase), otherRandbits, wordlist, lib)
         == Ok(st)
      && DeriveWallet(st.passphrase, salt, otherRandbits, wordlist, lib)
         == MasterKeys(st.finalHashSeed, lib.hmacSha512)
      && DeriveWallet(st.passphrase, salt, otherRandbits, wordlist, lib).Ok?
  {
    var st := DeriveSeed(seedLength, SaltPrefix + salt, None, randbits, wordlist, lib).value;
    GeneratedPhraseCount(seedLength, SaltPrefix + salt, randbits, wordlist, lib);
    WalletErrors(st.passphrase, salt, otherRandbits, wordlist, lib);
    assert st.passphrase != "";
  }

  class HDWallet {
    var seedgen: SeedGen
    var masterPrivateKey: string
    var masterChainCode: string

    /** A constructed wallet: a constructed SeedGen and two halves of 64 hex digits. */
    ghost predicate Valid()
      reads this, seedgen
    {
      && seedgen.Valid()
      && |masterPrivateKey| == 64 && IsLowerHex(masterPrivateKey)
      && |masterChainCode| == 64 && IsLowerHex(masterChainCode)
    }

    /** __init__ stores the SeedGen first; the keys are filled in by Create. */
    constructor Init(seedgen: SeedGen)
      ensures this.seedgen == seedgen
      ensures masterPrivateKey == "" && masterChainCode == ""
    {
      this.seedgen := seedgen;
      masterPrivateKey := "";
      masterChainCode := "";
    }

    /** _create_master(): run on the stored SeedGen's seed, whose hex always decodes. */
    method CreateMaster(hmac: HmacSha512) returns (pk: string, cc: string)
      requires seedgen.Valid()
      ensures MasterKeys(seedgen.finalHashSeed, hmac) == Ok((pk, cc))
      ensures IsLowerHex(pk) && IsLowerHex(cc)
    {
      var seed := FromHex(seedgen.FinalHashSeed());
      var hashed := Hex(hmac(BitcoinSeedKey, seed.value));
      pk := hashed[..|hashed| / 2];
      cc := hashed[|hashed| / 2..];
    }

    /** HDWallet's __init__: a SeedGen with the phrase's field count as seed length, the
        phrase as passphrase and the caller's salt, whose ValueError propagates; then the master pair. */
    static method Create(phrase: string, salt: string, randbits: RandBits, wordlist: WordList, lib: Library)
      returns (r: Result<HDWallet, Error>)
      ensures r.Err? <==> !ValidSeedLength(WordCount(phrase))
      ensures r.Err? ==> r.error == InvalidSeedLength
      ensures r.Ok? ==> fresh(r.value) && fresh(r.value.seedgen) && r.value.Valid()
      ensures r.Ok? ==> (r.value.seedgen.seedLength == WordCount(phrase)
                         && r.value.seedgen.passphrase == Some(phrase)
                         && r.value.seedgen.salt == SaltPrefix + salt
                         && r.value.seedgen.iterations == DefaultIterations
                         && r.value.seedgen.finalHashSeed == SeedHex(phrase, SaltPrefix + salt, lib))
      ensures r.Ok? ==> (DeriveWallet(phrase, salt, randbits, wordlist, lib)
                         == Ok((r.value.masterPrivateKey, r.value.masterChainCode)))
    {
      var seedLength := |Split(phrase, ' ')|;
      var s := SeedGen.Create(seedLength, salt, Some(phrase), DefaultIterations, randbits, wordlist, lib);
      if s.Err? {
        return Err(s.error);
      }
      assert phrase != "";
      var w := new HDWallet.Init(s.value);
      var pk, cc := w.CreateMaster(lib.hmacSha512);
      w.masterPrivateKey, w.masterChainCode := pk, cc;
      r := Ok(w);
    }
  }
}
