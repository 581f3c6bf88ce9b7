/** AES as the block cipher of the modes and of CCMP: the functions that ieee80211/aes.c computes, on byte
    strings. */
module AesModes {
  import opened AesSpec
  import opened RoundCipher
  import opened Aes
  import CipherModes

  /** The bytes of a state, column by column. */
  function BytesOf(s: State): (b: seq<bv8>)
    ensures |b| == 16
  {
    [s.c0.b0, s.c0.b1, s.c0.b2, s.c0.b3, s.c1.b0, s.c1.b1, s.c1.b2, s.c1.b3,
     s.c2.b0, s.c2.b1, s.c2.b2, s.c2.b3, s.c3.b0, s.c3.b1, s.c3.b2, s.c3.b3]
  }

  lemma BytesOfState(b: seq<bv8>)
    requires |b| == 16
    ensures BytesOf(StateOf(b)) == b
  {
  }

  lemma StateOfBytes(s: State)
    ensures StateOf(BytesOf(s)) == s
  {
  }

  /** aes_encrypt and aes_decrypt under the key schedule ks. */
  ghost function Encrypted(st: Steps<State>, ks: seq<State>): CipherModes.BlockFn<()>
    requires |ks| >= 2
  {
    (k: (), x: seq<bv8>) => (k, if |x| == 16 then BytesOf(Cipher(st, ks, StateOf(x))) else x)
  }

  ghost function Decrypted(st: Steps<State>, ks: seq<State>): CipherModes.BlockFn<()>
    requires |ks| >= 2
  {
    (k: (), x: seq<bv8>) => (k, if |x| == 16 then BytesOf(InvCipher(st, ks, StateOf(x))) else x)
  }

  /** They are an inverse pair, for every key of 16, 24 or 32 bytes. */
  lemma AesIsInvertible(st: Steps<State>, key: Key, ks: seq<State>)
    requires IsAes(st) && IsKeySchedule(key, ks)
    ensures CipherModes.KeepsLength(Encrypted(st, ks), 16) && CipherModes.KeepsLength(Decrypted(st, ks), 16)
    ensures CipherModes.Inverse(Encrypted(st, ks), Decrypted(st, ks), 16)
  {
    var fe, fd := Encrypted(st, ks), Decrypted(st, ks);
    forall k: (), x: seq<bv8> {:trigger fe(k, x)} | |x| == 16 ensures fd(k, fe(k, x).1) == (fe(k, x).0, x) {
      StateOfBytes(Cipher(st, ks, StateOf(x)));
      DecryptUndoesEncrypt(st, key, ks, StateOf(x));
      BytesOfState(x);
    }
  }

  /** So CBC over AES decrypts what it encrypts. */
  lemma AesCbcRoundTrip(st: Steps<State>, key: Key, ks: seq<State>, iv: seq<bv8>, data: seq<bv8>)
    requires IsAes(st) && IsKeySchedule(key, ks) && |iv| == 16 && |data| % 16 == 0
    ensures var ch := CipherModes.Chain((), iv);
            var e := CipherModes.Flat(CipherModes.CbcEncrypt, Encrypted(st, ks), 16, ch, data);
            CipherModes.Flat(CipherModes.CbcDecrypt, Decrypted(st, ks), 16, ch, e.1).1 == data
  {
    AesIsInvertible(st, key, ks);
    CipherModes.CbcDecryptUndoesEncrypt(Encrypted(st, ks), Decrypted(st, ks), 16, CipherModes.Chain((), iv), data);
  }
}
