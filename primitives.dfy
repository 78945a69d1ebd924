/** What the core takes from outside: the hash library, the secure random
    source and the word list. The library functions are parameters whose
    types promise only the length of their output (32 bytes for SHA-256,
    64 for PBKDF2-HMAC-SHA512 and HMAC-SHA512); nothing else about them is
    assumed anywhere in the model. */
module Primitives {
  import opened Encoding

  /** hashlib.sha256(data).digest() (FIPS 180-4). */
  type Sha256 = f: seq<byte> -> seq<byte> | forall data :: |f(data)| == 32
    witness (data: seq<byte>) => seq(32, _ => 0 as byte)

  /** hashlib.pbkdf2_hmac('sha512', password, salt, iterations) with the default
      output length of one SHA-512 digest (section 5.2 of RFC 8018). */
  type Pbkdf2HmacSha512 = f: (seq<byte>, seq<byte>, nat) -> seq<byte> | forall password, salt, iterations :: |f(password, salt, iterations)| == 64
    witness (password: seq<byte>, salt: seq<byte>, iterations: nat) => seq(64, _ => 0 as byte)

  /** hmac.new(key, msg, 'sha512').digest() (RFC 2104). */
  type HmacSha512 = f: (seq<byte>, seq<byte>) -> seq<byte> | forall key, msg :: |f(key, msg)| == 64
    witness (key: seq<byte>, msg: seq<byte>) => seq(64, _ => 0 as byte)

  /** The three library calls together. */
  datatype Library = Library(sha256: Sha256, pbkdf2HmacSha512: Pbkdf2HmacSha512, hmacSha512: HmacSha512)

  /** secrets.randbits(k): the integer the generator returns for k bits. Its documented
      range [0, 2^k) is a hypothesis of the lemmas that need it, not part of the type. */
  type RandBits = nat -> nat

  /** The contents of the word-list file: 2048 words, index 0 first. */
  type WordList = words: seq<string> | |words| == 2048
    witness seq(2048, _ => "")
}
