/**
 * The demonstration XOR stream cipher: a ciphertext is a 4-byte nonce
 * followed by the plaintext XORed with the repeated keystream nonce ‖ key.
 * The nonce, drawn from os.urandom in the program, is a parameter here.
 */
module Crypto {
  import opened Wrappers
  import opened Exceptions
  import opened BitCodec

  const NonceSize: nat := 4
  const MinKeySize: nat := 8

  /** The byte string of a text whose characters are all below 256. */
  function Latin1(s: string): (bs: seq<Byte>)
    requires forall i :: 0 <= i < |s| ==> (s[i] as int) < 256
    ensures |bs| == |s|
    ensures forall i :: 0 <= i < |s| ==> bs[i] == s[i] as int
  {
    seq(|s|, i requires 0 <= i < |s| => s[i] as int)
  }

  /** `DEFAULT_KEY = b"simurf-secret-key-v1"` */
  const DefaultKey: seq<Byte> := Latin1("simurf-secret-key-v1")

  /** A manager holds the key chosen when it was built. */
  datatype CryptoManager = CryptoManager(key: seq<Byte>)
  {
    predicate Valid() { |key| >= MinKeySize }
  }

  /**
   * `CryptoManager(key)`: `key or DEFAULT_KEY`, so a missing or empty key
   * selects the default; a key shorter than 8 bytes is refused.
   */
  function NewManager(key: Option<seq<Byte>>): (r: Result<CryptoManager, Exception>)
    ensures key.None? || |key.value| == 0 ==> r == Ok(CryptoManager(DefaultKey))
    ensures key.Some? && |key.value| > 0 ==>
      (r.Ok? <==> |key.value| >= MinKeySize) && (r.Ok? ==> r.value.key == key.value)
    ensures r.Ok? ==> r.value.Valid()
    ensures r.Err? ==> r.error == ValueError
  {
    var k := if key.None? || |key.value| == 0 then DefaultKey else key.value;
    if |k| < MinKeySize then Err(ValueError) else Ok(CryptoManager(k))
  }

  /** `_xor`: byte i of the data XORed with byte i mod |keystream| of the keystream. */
  function Xor(data: seq<Byte>, keystream: seq<Byte>): (r: seq<Byte>)
    requires |data| == 0 || |keystream| > 0
    ensures |r| == |data|
  {
    seq(|data|, i requires 0 <= i < |data| => XorByte(data[i], keystream[i % |keystream|]))
  }

  /** XORing twice with the same keystream gives back the data. */
  lemma XorInvolution(data: seq<Byte>, keystream: seq<Byte>)
    requires |keystream| > 0
    ensures Xor(Xor(data, keystream), keystream) == data
  {
    var once := Xor(data, keystream);
    forall i | 0 <= i < |data|
      ensures Xor(once, keystream)[i] == data[i]
    {
      XorByteInvolution(data[i], keystream[i % |keystream|]);
    }
  }

  /** A byte of the output differs from the input byte exactly where the keystream byte is not 0. */
  lemma XorChanges(data: seq<Byte>, keystream: seq<Byte>, i: nat)
    requires |keystream| > 0 && i < |data|
    ensures Xor(data, keystream)[i] == data[i] <==> keystream[i % |keystream|] == 0
  {
    XorByteFixed(data[i], keystream[i % |keystream|]);
  }

  /** `encrypt`: nonce ‖ XOR of the plaintext with the repeated nonce ‖ key. */
  function Encrypt(m: CryptoManager, plaintext: seq<Byte>, nonce: seq<Byte>): (r: Result<seq<Byte>, Exception>)
    requires m.Valid() && |nonce| == NonceSize
    ensures r.Err? <==> |plaintext| == 0
    ensures r.Err? ==> r.error == ValueError
    ensures r.Ok? ==> |r.value| == |plaintext| + NonceSize && r.value[..NonceSize] == nonce
  {
    if |plaintext| == 0 then Err(ValueError)
    else Ok(nonce + Xor(plaintext, nonce + m.key))
  }

  /** `decrypt`: split off the nonce and XOR the rest with nonce ‖ key. */
  function Decrypt(m: CryptoManager, data: seq<Byte>): (r: Result<seq<Byte>, Exception>)
    requires m.Valid()
    ensures r.Err? <==> |data| < NonceSize + 1
    ensures r.Err? ==> r.error == ValueError
    ensures r.Ok? ==> |r.value| == |data| - NonceSize
  {
    if |data| < NonceSize + 1 then Err(ValueError)
    else Ok(Xor(data[NonceSize..], data[..NonceSize] + m.key))
  }

  /** Decryption inverts encryption, for every key, nonce and non-empty plaintext. */
  lemma DecryptEncrypt(m: CryptoManager, plaintext: seq<Byte>, nonce: seq<Byte>)
    requires m.Valid() && |nonce| == NonceSize && |plaintext| > 0
    ensures Decrypt(m, Encrypt(m, plaintext, nonce).value) == Ok(plaintext)
  {
    var c := Encrypt(m, plaintext, nonce).value;
    assert c[NonceSize..] == Xor(plaintext, nonce + m.key);
    assert c[..NonceSize] == nonce;
    XorInvolution(plaintext, nonce + m.key);
  }

  /** A ciphertext is 4 bytes longer than its plaintext, so never equal to it. */
  lemma CiphertextDiffers(m: CryptoManager, plaintext: seq<Byte>, nonce: seq<Byte>)
    requires m.Valid() && |nonce| == NonceSize && |plaintext| > 0
    ensures Encrypt(m, plaintext, nonce).value != plaintext
  {
  }

  /** Byte i of the ciphertext body is plaintext byte i XOR keystream byte i mod (4 + |key|). */
  lemma EncryptLayout(m: CryptoManager, plaintext: seq<Byte>, nonce: seq<Byte>, i: nat)
    requires m.Valid() && |nonce| == NonceSize && i < |plaintext|
    ensures var ks := nonce + m.key;
      Encrypt(m, plaintext, nonce).value[NonceSize + i] == XorByte(plaintext[i], ks[i % |ks|])
  {
  }

  /** The instance behind the module-level helpers. */
  const DefaultManager: CryptoManager := CryptoManager(DefaultKey)

  /** The default manager is what `CryptoManager()` builds. */
  lemma DefaultManagerBuilt()
    ensures NewManager(None) == Ok(DefaultManager)
    ensures |DefaultKey| == 20 && DefaultManager.Valid()
  {
  }

  /** Module-level `encrypt`. */
  function EncryptDefault(data: seq<Byte>, nonce: seq<Byte>): (r: Result<seq<Byte>, Exception>)
    requires |nonce| == NonceSize
    ensures r.Err? <==> |data| == 0
    ensures r.Err? ==> r.error == ValueError
    ensures r.Ok? ==> Decrypt(DefaultManager, r.value) == Ok(data)
  {
    var r := Encrypt(DefaultManager, data, nonce);
    if r.Ok? then DecryptEncrypt(DefaultManager, data, nonce); r else r
  }

  /** Module-level `decrypt`. */
  function DecryptDefault(data: seq<Byte>): (r: Result<seq<Byte>, Exception>)
    ensures r.Err? <==> |data| < NonceSize + 1
    ensures r.Err? ==> r.error == ValueError
  {
    Decrypt(DefaultManager, data)
  }
}
