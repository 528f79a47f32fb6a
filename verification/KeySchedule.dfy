/** The key schedule of section 7.1 of RFC 8446 and the traffic key updates of section 7.2. */
module KeySchedule {
  import opened Bits
  import opened Primitives
  import opened Record
  import Sha256

  const ZEROS: Secret := seq(32, _ => 0)

  function EmptyHash(c: Crypto): Secret { Sha256.Hash(c.compression, []) }

  // The tree of section 7.1 for a handshake without a pre-shared key.

  function EarlySecret(c: Crypto): Secret { c.extract(ZEROS, []) }

  function HandshakeSecret(c: Crypto, ecdhe: Bytes): Secret
  {
    c.extract(c.expand(EarlySecret(c), DERIVED, EmptyHash(c)), ecdhe)
  }

  function MasterSecret(c: Crypto, ecdhe: Bytes): Secret
  {
    c.extract(c.expand(HandshakeSecret(c, ecdhe), DERIVED, EmptyHash(c)), ZEROS)
  }

  /** application_traffic_secret_n from application_traffic_secret_0. */
  function Generation(c: Crypto, secret: Secret, n: nat): Secret
  {
    if n == 0 then secret else NextSecret(c, Generation(c, secret, n - 1))
  }

  function NextSecret(c: Crypto, secret: Secret): Secret { c.expand(secret, TRAFFIC_UPD, []) }

  class Schedule {
    var early: Secret
    var handshake: Secret
    var master: Secret
    var clientHandshake: Secret
    var serverHandshake: Secret
    var clientApplication: Secret
    var serverApplication: Secret
    ghost var ecdhe: Bytes   // the shared secret fed in last

    constructor ()
    {
      early, handshake, master := ZEROS, ZEROS, ZEROS;
      clientHandshake, serverHandshake, clientApplication, serverApplication := ZEROS, ZEROS, ZEROS, ZEROS;
      ecdhe := [];
    }

    method Wipe()
      modifies this
      ensures early == handshake == master == ZEROS
      ensures clientHandshake == serverHandshake == clientApplication == serverApplication == ZEROS
    {
      early, handshake, master := ZEROS, ZEROS, ZEROS;
      clientHandshake, serverHandshake, clientApplication, serverApplication := ZEROS, ZEROS, ZEROS, ZEROS;
    }

    method DeriveEarly(c: Crypto)
      modifies this`early
      ensures early == EarlySecret(c)
    {
      early := c.extract(seq(32, _ => 0), []);
    }

    method DeriveHandshake(c: Crypto, ecdhe: Bytes, th: Bytes)
      requires early == EarlySecret(c)
      modifies this`handshake, this`clientHandshake, this`serverHandshake, this`ecdhe
      ensures this.ecdhe == ecdhe && handshake == HandshakeSecret(c, ecdhe)
      ensures clientHandshake == c.expand(HandshakeSecret(c, ecdhe), C_HS_TRAFFIC, th)
      ensures serverHandshake == c.expand(HandshakeSecret(c, ecdhe), S_HS_TRAFFIC, th)
    {
      var derived := c.expand(early, DERIVED, Sha256.Hash(c.compression, []));
      handshake := c.extract(derived, ecdhe);
      clientHandshake := c.expand(handshake, C_HS_TRAFFIC, th);
      serverHandshake := c.expand(handshake, S_HS_TRAFFIC, th);
      this.ecdhe := ecdhe;
    }

    method DeriveMaster(c: Crypto, th: Bytes)
      requires handshake == HandshakeSecret(c, ecdhe)
      modifies this`master, this`clientApplication, this`serverApplication
      ensures master == MasterSecret(c, ecdhe)
      ensures clientApplication == c.expand(MasterSecret(c, ecdhe), C_AP_TRAFFIC, th)
      ensures serverApplication == c.expand(MasterSecret(c, ecdhe), S_AP_TRAFFIC, th)
    {
      var derived := c.expand(handshake, DERIVED, Sha256.Hash(c.compression, []));
      master := c.extract(derived, seq(32, _ => 0));
      clientApplication := c.expand(master, C_AP_TRAFFIC, th);
      serverApplication := c.expand(master, S_AP_TRAFFIC, th);
    }
  }

  /** The next generation replaces the secret and starts its keys at sequence number 0. */
  method UpdateTrafficSecret(c: Crypto, secret: Secret, keys: TrafficKeys) returns (next: Secret)
    modifies keys
    ensures next == NextSecret(c, secret)
    ensures keys.key == c.keyOf(next) && keys.iv == c.ivOf(next) && keys.sequenceNumber == 0
  {
    next := c.expand(secret, TRAFFIC_UPD, []);
    keys.Derive(c, next);
  }
}
