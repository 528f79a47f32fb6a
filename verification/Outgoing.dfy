/** What one end puts on the stream once connected: records sealed one after another, and the keys they leave behind. */
module Outgoing {
  import opened Bits
  import opened Types
  import opened Primitives
  import opened Record
  import opened KeySchedule
  import opened Handshake

  /** One end's sending side: the traffic secret and the number of the next record. */
  datatype Half = Half(secret: Secret, number: u64)

  /** A record of application data, or a KeyUpdate. */
  datatype Item = Piece(content: Bytes, padding: nat) | Update(request: bool)

  predicate Allowed(i: Item)
  {
    i.Piece? ==> |i.content| <= MAX_CONTENT && i.padding <= 255 && |i.content| + i.padding + 17 <= MAX_FRAGMENT
  }

  function KeyUpdateMessage(request: bool): Bytes { [KEY_UPDATE, 0, 0, 1, if request then 1 else 0] }

  function RecordOf(c: Crypto, h: Half, i: Item): Bytes
  {
    match i
    case Piece(content, padding) =>
      SealRecord(c.aes, c.keyOf(h.secret), c.ivOf(h.secret), h.number, APPLICATION_DATA, content, padding)
    case Update(request) =>
      SealRecord(c.aes, c.keyOf(h.secret), c.ivOf(h.secret), h.number, HANDSHAKE, KeyUpdateMessage(request), 0)
  }

  /** A record counts the number up; a KeyUpdate starts the next generation at 0. */
  function Advance(c: Crypto, h: Half, i: Item): Half
  {
    match i
    case Piece(_, _) => h.(number := Next(h.number))
    case Update(_) => Half(NextSecret(c, h.secret), 0)
  }

  function Wire(c: Crypto, h: Half, items: seq<Item>): Bytes
    decreases |items|
  {
    if items == [] then [] else RecordOf(c, h, items[0]) + Wire(c, Advance(c, h, items[0]), items[1..])
  }

  function AdvanceAll(c: Crypto, h: Half, items: seq<Item>): Half
    decreases |items|
  {
    if items == [] then h else AdvanceAll(c, Advance(c, h, items[0]), items[1..])
  }

  /** The application data in an item. */
  function Part(i: Item): Bytes { if i.Piece? then i.content else [] }

  function Content(items: seq<Item>): Bytes
  {
    if items == [] then [] else Part(items[0]) + Content(items[1..])
  }

  lemma {:induction false} WireOne(c: Crypto, h: Half, i: Item)
    ensures Wire(c, h, [i]) == RecordOf(c, h, i) && AdvanceAll(c, h, [i]) == Advance(c, h, i) && Content([i]) == Part(i)
  {
    var r := RecordOf(c, h, i);
    assert [i][1..] == [];
    assert r + [] == r && Part(i) + [] == Part(i);
  }

  /** Sending can stop anywhere and go on where it stopped. */
  lemma {:induction false} WireConcat(c: Crypto, h: Half, a: seq<Item>, b: seq<Item>)
    ensures Wire(c, h, a + b) == Wire(c, h, a) + Wire(c, AdvanceAll(c, h, a), b)
    ensures AdvanceAll(c, h, a + b) == AdvanceAll(c, AdvanceAll(c, h, a), b)
    ensures Content(a + b) == Content(a) + Content(b)
    decreases |a|
  {
    if a == [] {
      assert a + b == b;
    } else {
      var g := Advance(c, h, a[0]);
      assert (a + b)[1..] == a[1..] + b;
      WireConcat(c, g, a[1..], b);
      Associate(RecordOf(c, h, a[0]), Wire(c, g, a[1..]), Wire(c, AdvanceAll(c, h, a), b));
      Associate(Part(a[0]), Content(a[1..]), Content(b));
    }
  }

  // ---- what a send emits ----

  /** The first octets of the data that go into one record. */
  function ChunkLength(data: Bytes, padding: nat): (n: nat)
    requires padding <= 255
    ensures n <= |data| && (data != [] ==> n > 0)
  {
    if |data| > 16623 - padding then 16623 - padding else |data|
  }

  function Chunks(data: Bytes, padding: nat): seq<Item>
    requires padding <= 255
    decreases |data|
  {
    if data == [] then []
    else
      var n := ChunkLength(data, padding);
      [Piece(data[..n], padding)] + Chunks(data[n..], padding)
  }

  /** The sizes a send refuses: the chunk limit lets a first chunk through that is too long for one record. */
  predicate Oversize(size: nat, padding: nat) { size > MAX_CONTENT && padding < 239 }

  lemma ChunkTooLong(size: nat, off: nat, n: nat, padding: nat)
    requires off < size && padding <= 255 && n == (if size - off > 16623 - padding then 16623 - padding else size - off)
    requires off > 0 ==> !Oversize(size, padding)
    ensures ProtectError(APPLICATION_DATA, n, padding, MAX_RECORD) == if Oversize(size, padding) then BAD_RECORD else OK
  {
  }

  lemma ContentFirst(first: Item, rest: seq<Item>)
    ensures Content([first] + rest) == Part(first) + Content(rest)
    ensures (forall i :: i in [first] + rest ==> Allowed(i)) <==> Allowed(first) && forall i :: i in rest ==> Allowed(i)
  {
    hide Allowed;
    var all := [first] + rest;
    assert all[0] == first && all[1..] == rest;
  }

  /** The chunks carry the data, in allowed records exactly when the data is not oversized. */
  lemma {:induction false} ChunksCarry(data: Bytes, padding: nat)
    requires padding <= 255
    ensures Content(Chunks(data, padding)) == data
    ensures (forall i :: i in Chunks(data, padding) ==> Allowed(i)) <==> !Oversize(|data|, padding)
    decreases |data|
  {
    if data != [] {
      var n := ChunkLength(data, padding);
      var first, rest := Piece(data[..n], padding), Chunks(data[n..], padding);
      ChunksCarry(data[n..], padding);
      ContentFirst(first, rest);
      assert Chunks(data, padding) == [first] + rest;
      assert data == data[..n] + data[n..];
    }
  }
}
