/**
 * The foreign collaborators of the protocol, passed around as functions: the
 * RaptorQ fountain codec (RFC 6330) and the XChaCha20-Poly1305 AEAD. Only the
 * shape of their inputs and outputs is modelled.
 */
module Codec {
  import opened Bytes
  import opened Wrappers

  /** `SYMBOL_SIZE` of src/lib.rs. */
  const SYMBOL_SIZE: nat := 512

  /**
   * A RaptorQ decoder configured for an object of the given transfer length,
   * after it has been fed the given serialised packets in order: the
   * recovered object, or None while it still needs more packets.
   */
  type Decoder = (nat, seq<seq<byte>>) -> Option<seq<byte>>

  /**
   * `Encoder::with_defaults(payload, symbolSize).get_encoded_packets(repair)`:
   * the serialised packets. Their number and contents are left open.
   */
  type Encoder = (seq<byte>, nat, nat) -> seq<seq<byte>>

  /** AEAD encryption under the fixed all-zero key: (nonce, plaintext) to ciphertext. */
  type Encrypt = (seq<byte>, seq<byte>) -> seq<byte>

  /** AEAD decryption under the fixed all-zero key: None when authentication fails. */
  type Open = (seq<byte>, seq<byte>) -> Option<seq<byte>>

  /** The AEAD correctness property: opening what was sealed under the same nonce gives the plaintext back. */
  ghost predicate OpensWhatItSeals(encrypt: Encrypt, open: Open) {
    forall nonce, plaintext :: open(nonce, encrypt(nonce, plaintext)) == Some(plaintext)
  }

  /** `get_encoded_packets(1)` yields at least one packet for this payload, so `packets[0]` exists. */
  predicate YieldsPacket(encode: Encoder, payload: seq<byte>) {
    |encode(payload, SYMBOL_SIZE, 1)| > 0
  }
}
