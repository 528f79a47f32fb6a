/** The primitives the protocol code calls, as parameters. */
module Primitives {
  import opened Bits
  import Gcm
  import Sha256

  type Secret = s: Bytes | |s| == 32 witness seq(32, _ => 0)

  /** The labels of sections 7.1, 7.2 and 4.4.4 of RFC 8446: "derived", "c hs traffic", "s hs traffic", "c ap traffic",
      "s ap traffic", "traffic upd", "finished". */
  datatype Label = DERIVED | C_HS_TRAFFIC | S_HS_TRAFFIC | C_AP_TRAFFIC | S_AP_TRAFFIC | TRAFFIC_UPD | FINISHED_KEY

  /** AES-128, the SHA-256 compression function, HMAC-SHA-256, HKDF-Extract, HKDF-Expand-Label to 32 octets
      (secret, label, context), and HKDF-Expand-Label with the labels "key" and "iv". */
  datatype Crypto = Crypto(
    aes: Gcm.Cipher,
    compression: Sha256.Compression,
    hmac: (Bytes, Bytes) -> Secret,
    extract: (Bytes, Bytes) -> Secret,
    expand: (Secret, Label, Bytes) -> Secret,
    keyOf: Secret -> Gcm.Block,
    ivOf: Secret -> Gcm.Nonce)
}
