/** The credential cipher (Fernet under a PBKDF2-derived key), kept opaque:
    `encrypt` takes the plaintext and the per-call randomness (Fernet draws a
    fresh IV and timestamp for each token); `decrypt` either recovers a
    plaintext or fails (`InvalidToken`). */
module Cipher {
  import opened Optional

  datatype Cipher = Cipher(encrypt: (string, nat) -> string, decrypt: string -> Option<string>)

  /** The one property the share lifecycle assumes of the cipher: decrypting
      anything it encrypted returns the original plaintext. */
  ghost predicate RoundTrips(c: Cipher)
  {
    forall p, nonce :: c.decrypt(c.encrypt(p, nonce)) == Some(p)
  }

  /** A cipher that tags the plaintext with a key and checks the tag. */
  function TaggingCipher(key: string): Cipher
  {
    Cipher(
      (p: string, nonce: nat) => key + p,
      (t: string) => if key <= t then Some(t[|key|..]) else None)
  }

  /** The round-trip assumption is consistent: some cipher meets it. */
  lemma TaggingCipherRoundTrips(key: string)
    ensures RoundTrips(TaggingCipher(key))
  {
    var c := TaggingCipher(key);
    forall p, nonce
      ensures c.decrypt(c.encrypt(p, nonce)) == Some(p)
    {
      assert (key + p)[|key|..] == p;
    }
  }
}
