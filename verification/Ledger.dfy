/** The record of every sealing a client does: which write keys, which sequence number. */
module Ledger {
  import opened Gcm
  import opened Aead
  import opened Record

  /** The sequence number after `count` increments from 0; it wraps. */
  function NumberOf(count: nat): u64
  {
    if count == 0 then 0 else Next(NumberOf(count - 1))
  }

  lemma {:induction false} NumberIsCount(count: nat)
    requires count < 0x1_0000_0000_0000_0000
    ensures NumberOf(count) == count
  {
    if count > 0 { NumberIsCount(count - 1); }
  }

  /** One installation of write keys, and how many records it has sealed. */
  datatype Epoch = Epoch(id: nat, key: Block, iv: Nonce, count: nat)

  /** A sealing: the keys, the index of the record among those sealed with them, and the nonce used. */
  datatype Sealing = Sealing(epoch: Epoch, index: nat, nonce: Nonce)

  datatype Book = Book(sealings: seq<Sealing>, next: nat, handshake: Epoch, application: Epoch)

  ghost predicate Entered(s: Sealing, e: Epoch)
  {
    s.epoch.id == e.id ==> s.epoch.key == e.key && s.epoch.iv == e.iv && s.index < e.count
  }

  ghost predicate Ok(b: Book)
  {
    && b.handshake.id < b.next && b.application.id < b.next && b.handshake.id != b.application.id
    && (forall i :: 0 <= i < |b.sealings| ==>
          && b.sealings[i].epoch.id < b.next
          && b.sealings[i].nonce == NonceOf(b.sealings[i].epoch.iv, NumberOf(b.sealings[i].index))
          && Entered(b.sealings[i], b.handshake) && Entered(b.sealings[i], b.application))
    && (forall i, j :: 0 <= i < j < |b.sealings| && b.sealings[i].epoch.id == b.sealings[j].epoch.id ==>
          && b.sealings[i].index < b.sealings[j].index
          && b.sealings[i].epoch.key == b.sealings[j].epoch.key
          && b.sealings[i].epoch.iv == b.sealings[j].epoch.iv)
  }

  /** A book in which every entry was made by the functions below. */
  type Kept = b: Book | Ok(b) ghost witness Book([], 2, Epoch(0, ZERO, NO_IV, 0), Epoch(1, ZERO, NO_IV, 0))

  ghost function Blank(key: Block, iv: Nonce): Kept
  {
    Book([], 2, Epoch(0, key, iv, 0), Epoch(1, key, iv, 0))
  }

  ghost function InstallHandshake(b: Kept, key: Block, iv: Nonce): Kept
  {
    b.(handshake := Epoch(b.next, key, iv, 0), next := b.next + 1)
  }

  ghost function InstallApplication(b: Kept, key: Block, iv: Nonce): Kept
  {
    b.(application := Epoch(b.next, key, iv, 0), next := b.next + 1)
  }

  function Sealed(e: Epoch): Sealing { Sealing(e, e.count, NonceOf(e.iv, NumberOf(e.count))) }

  function Counted(e: Epoch): Epoch { e.(count := e.count + 1) }

  ghost function SealHandshake(b: Kept): Kept
  {
    var c := b.(sealings := b.sealings + [Sealed(b.handshake)], handshake := Counted(b.handshake));
    SealKeeps(b, c, b.handshake);
    c
  }

  ghost function SealApplication(b: Kept): Kept
  {
    var c := b.(sealings := b.sealings + [Sealed(b.application)], application := Counted(b.application));
    SealKeeps(b, c, b.application);
    c
  }

  lemma SealKeeps(b: Book, c: Book, e: Epoch)
    requires Ok(b) && c.sealings == b.sealings + [Sealed(e)] && c.next == b.next
    requires (e == b.handshake && c.handshake == Counted(e) && c.application == b.application)
          || (e == b.application && c.application == Counted(e) && c.handshake == b.handshake)
    ensures Ok(c)
  {
    forall i | 0 <= i < |b.sealings|
      ensures c.sealings[i] == b.sealings[i]
    {
    }
  }

  /** No installation of keys seals two records under one nonce before its 2^64-th record. */
  lemma NoNonceTwice(b: Book, i: nat, j: nat)
    requires Ok(b) && i < j < |b.sealings| && b.sealings[i].epoch.id == b.sealings[j].epoch.id
    requires b.sealings[j].index < 0x1_0000_0000_0000_0000
    ensures b.sealings[i].epoch.key == b.sealings[j].epoch.key
    ensures b.sealings[i].nonce != b.sealings[j].nonce
  {
    var s, t := b.sealings[i], b.sealings[j];
    NumberIsCount(s.index);
    NumberIsCount(t.index);
    if s.nonce == t.nonce {
      NonceInjective(s.epoch.iv, s.index, t.index);
    }
  }
}
