/** Handshake messages and their reassembly from record payloads. */
module Handshake {
  import opened Bits
  import opened Types

  const SERVER_HELLO: Byte := 2
  const NEW_SESSION_TICKET: Byte := 4
  const ENCRYPTED_EXTENSIONS: Byte := 8
  const CERTIFICATE: Byte := 11
  const CERTIFICATE_VERIFY: Byte := 15
  const FINISHED: Byte := 20
  const KEY_UPDATE: Byte := 24

  datatype Message = Message(kind: Byte, body: Bytes)

  const MAX_BODY := 0xFF_FFFF

  function Encode(m: Message): Bytes { [m.kind] + ToBe(|m.body|, 3) + m.body }

  /** The message at the front of `input`, if all of it is there. */
  function Parse(input: Bytes): Result<Message>
  {
    if |input| < 4 || |input| < 4 + Be(input[1..4]) then Err(BUFFER_TOO_SMALL)
    else Ok(Message(input[0], input[4..4 + Be(input[1..4])]))
  }

  /** Parsing finds exactly the message whose encoding the input starts with. */
  lemma ParseIff(input: Bytes, m: Message)
    ensures Parse(input) == Ok(m) <==> |m.body| <= MAX_BODY && Encode(m) <= input
  {
    hide Be;
    hide ToBe;
    Powers();
    if |input| >= 4 {
      BeBound(input[1..4]);
      ToBeOfBe(input[1..4]);
    }
    if Parse(input) == Ok(m) {
      assert input[..4 + |m.body|] == [input[0]] + input[1..4] + m.body;
    }
    if |m.body| <= MAX_BODY && Encode(m) <= input {
      var e := Encode(m);
      BeOfToBe(|m.body|, 3);
      assert e[1..4] == ToBe(|m.body|, 3) && e[4..] == m.body;
      assert forall i :: 0 <= i < |e| ==> input[i] == e[i];
      assert input[1..4] == e[1..4] && input[4..4 + |m.body|] == e[4..];
    }
  }

  /** Any encoded message is at least four octets and can be read back, whatever follows. */
  lemma ParseEncoded(m: Message, rest: Bytes)
    requires |m.body| <= MAX_BODY
    ensures Parse(Encode(m) + rest) == Ok(m) && (Encode(m) + rest)[|Encode(m)|..] == rest
  {
    ParseIff(Encode(m) + rest, m);
  }

  // ---- a whole stream at once ----

  /** The complete messages at the front of a stream. */
  function Messages(s: Bytes): seq<Message>
    decreases |s|
  {
    match Parse(s)
    case Err(_) => []
    case Ok(m) => [m] + Messages(s[|Encode(m)|..])
  }

  /** What is left of a stream behind its complete messages. */
  function Rest(s: Bytes): (r: Bytes)
    ensures Parse(r).Err?
    decreases |s|
  {
    match Parse(s)
    case Err(_) => s
    case Ok(m) => Rest(s[|Encode(m)|..])
  }

  function EncodeAll(ms: seq<Message>): Bytes
  {
    if ms == [] then [] else Encode(ms[0]) + EncodeAll(ms[1..])
  }

  lemma {:induction false} FirstOf(s: Bytes, m: Message, t: Bytes, ms: seq<Message>)
    requires Encode(m) <= s && t == s[|Encode(m)|..]
    ensures s == Encode(m) + t && EncodeAll([m] + ms) == Encode(m) + EncodeAll(ms)
  {
    assert ([m] + ms)[1..] == ms;
    assert s[..|Encode(m)|] == Encode(m);
  }

  /** No octet is lost, added or reordered. */
  lemma {:induction false} StreamIsMessagesAndRest(s: Bytes)
    ensures s == EncodeAll(Messages(s)) + Rest(s)
    ensures forall m :: m in Messages(s) ==> |m.body| <= MAX_BODY
    decreases |s|
  {
    match Parse(s)
    case Err(_) =>
    case Ok(m) =>
      ParseIff(s, m);
      var n := |Encode(m)|;
      var t := s[n..];
      StreamIsMessagesAndRest(t);
      FirstOf(s, m, t, Messages(t));
      Associate(Encode(m), EncodeAll(Messages(t)), Rest(t));
  }

  lemma {:induction false} FirstMessage(s: Bytes, m: Message, t: Bytes)
    requires Parse(s) == Ok(m) && s[|Encode(m)|..] == t
    ensures Messages(s) == [m] + Messages(t) && Rest(s) == Rest(t)
  {
  }

  /** The messages of a stream are the only way to cut it into messages. */
  lemma {:induction false} MessagesOfEncodings(ms: seq<Message>, rest: Bytes)
    requires forall m :: m in ms ==> |m.body| <= MAX_BODY
    requires Parse(rest).Err?
    ensures Messages(EncodeAll(ms) + rest) == ms && Rest(EncodeAll(ms) + rest) == rest
  {
    if ms == [] {
      assert EncodeAll(ms) + rest == rest;
    } else {
      var t := EncodeAll(ms[1..]) + rest;
      Associate(Encode(ms[0]), EncodeAll(ms[1..]), rest);
      ParseEncoded(ms[0], t);
      MessagesOfEncodings(ms[1..], rest);
      FirstMessage(Encode(ms[0]) + t, ms[0], t);
      assert ms == [ms[0]] + ms[1..];
    }
  }

  /** Parsing can stop anywhere and go on with what was left. */
  lemma {:induction false} MessagesConcat(s: Bytes, t: Bytes)
    ensures Messages(s + t) == Messages(s) + Messages(Rest(s) + t)
    ensures Rest(s + t) == Rest(Rest(s) + t)
    decreases |s|
  {
    match Parse(s)
    case Err(_) =>
    case Ok(m) =>
      ParseIff(s, m);
      ParseIff(s + t, m);
      var n := |Encode(m)|;
      assert (s + t)[n..] == s[n..] + t;
      MessagesConcat(s[n..], t);
  }

  // ---- the deframer ----

  class Deframer {
    const storage: array<Byte>
    var used: nat
    ghost var appended: Bytes   // since the last reset
    ghost var consumed: Bytes

    ghost predicate Valid()
      reads this, storage
    {
      used <= storage.Length && appended == consumed + Buffered()
    }

    lemma Room()
      requires Valid()
      ensures used <= storage.Length && |Buffered()| == used && appended == consumed + Buffered()
    {
    }

    function Buffered(): Bytes
      requires used <= storage.Length
      reads this, storage
    {
      storage[..used]
    }

    constructor (capacity: nat)
      ensures Valid() && used == 0 && storage.Length == capacity && fresh(storage) && appended == consumed == []
    {
      storage := new Byte[capacity];
      used := 0;
      appended, consumed := [], [];
    }

    method Reset()
      modifies this`used, this`appended, this`consumed
      ensures Valid() && used == 0 && appended == consumed == []
    {
      used := 0;
      appended, consumed := [], [];
    }

    method Append(bytes: Bytes) returns (e: Error)
      requires Valid()
      modifies this`used, this`appended, storage
      ensures Valid()
      ensures e == if |bytes| > storage.Length - old(used) then BUFFER_TOO_SMALL else OK
      ensures e == OK ==> Buffered() == old(Buffered()) + bytes && appended == old(appended) + bytes
      ensures e != OK ==> Buffered() == old(Buffered()) && appended == old(appended)
    {
      if |bytes| > storage.Length - used { return BUFFER_TOO_SMALL; }
      ghost var held := storage[..used];
      for i := 0 to |bytes|
        modifies storage
        invariant storage[..used + i] == held + bytes[..i]
      {
        storage[used + i] := bytes[i];
      }
      assert bytes[..|bytes|] == bytes;
      used := used + |bytes|;
      appended := appended + bytes;
      return OK;
    }

    method Peek() returns (r: Result<Message>)
      requires Valid()
      ensures r == Parse(Buffered())
    {
      r := Parse(storage[..used]);
    }

    /** Drops the first message; the rest moves to the front. */
    method Consume() returns (e: Error)
      requires Valid()
      modifies this`used, this`consumed, storage
      ensures Valid() && appended == old(appended)
      ensures e == OK <==> Parse(old(Buffered())).Ok?
      ensures e == OK ==> old(Buffered()) == Encode(Parse(old(Buffered())).value) + Buffered()
      ensures e == OK ==> used + 4 <= old(used)
      ensures e == OK ==> consumed == old(consumed) + Encode(Parse(old(Buffered())).value)
      ensures e != OK ==> e == BUFFER_TOO_SMALL && Buffered() == old(Buffered()) && consumed == old(consumed)
    {
      var r := Parse(storage[..used]);
      if r.Err? { return r.error; }
      ghost var held, m := Buffered(), r.value;
      var n := |Encode(r.value)|;
      ParseIff(held, m);
      FirstOf(held, m, held[n..], []);
      MoveDown(n);
      used := used - n;
      consumed := consumed + Encode(m);
      assert Buffered() == held[n..];
      Associate(old(consumed), Encode(m), held[n..]);
      return OK;
    }

    /** memmove of everything behind the first `n` octets. */
    method MoveDown(n: nat)
      requires n <= used <= storage.Length
      modifies storage
      ensures storage[..used - n] == old(storage[n..used])
    {
      ghost var tail := storage[n..used];
      for i := 0 to used - n
        invariant forall k :: 0 <= k < i ==> storage[k] == tail[k]
        invariant forall k :: i + n <= k < used ==> storage[k] == tail[k - n]
      {
        storage[i] := storage[i + n];
      }
    }

    /** The loop around peek and consume: takes every complete message and terminates. */
    method Drain() returns (ms: seq<Message>)
      requires Valid()
      modifies this`used, this`consumed, storage
      ensures Valid() && appended == old(appended)
      ensures ms == Messages(old(Buffered())) && Buffered() == Rest(old(Buffered()))
    {
      hide Parse;
      hide Encode;
      ms := [];
      ghost var s := Buffered();
      while true
        invariant Valid() && appended == old(appended)
        invariant Messages(s) == ms + Messages(Buffered()) && Rest(s) == Rest(Buffered())
        decreases used
      {
        var r := Peek();
        if r.Err? { break; }
        ghost var before := Buffered();
        var e := Consume();
        assert before[|Encode(r.value)|..] == Buffered();
        ms := ms + [r.value];
      }
    }

    /** Record payloads one after another, each appended and drained, until one does not fit. */
    method Feed(chunks: seq<Bytes>) returns (e: Error, ms: seq<Message>)
      requires Valid() && appended == []
      modifies this`used, this`appended, this`consumed, storage
      ensures Valid()
      ensures e == OK <==> FitsAll(storage.Length, chunks)
      ensures e == OK ==> ms == Messages(Concat(chunks)) && Buffered() == Rest(Concat(chunks)) && appended == Concat(chunks)
      ensures e == OK || e == BUFFER_TOO_SMALL
    {
      ms := [];
      for i := 0 to |chunks|
        invariant Valid() && appended == Concat(chunks[..i])
        invariant ms == Messages(Concat(chunks[..i])) && Buffered() == Rest(Concat(chunks[..i]))
        invariant FitsAll(storage.Length, chunks[..i])
      {
        ConcatSnoc(chunks, i);
        FitsSnoc(storage.Length, chunks, i);
        MessagesConcat(Concat(chunks[..i]), chunks[i]);
        e := Append(chunks[i]);
        if e != OK {
          FitsPrefix(storage.Length, chunks, i + 1);
          return;
        }
        var more := Drain();
        ms := ms + more;
      }
      assert chunks[..|chunks|] == chunks;
      e := OK;
    }
  }

  function Concat(chunks: seq<Bytes>): Bytes
  {
    if chunks == [] then [] else Concat(chunks[..|chunks| - 1]) + chunks[|chunks| - 1]
  }

  /** No payload ever exceeds the room behind the incomplete message it continues. */
  ghost predicate FitsAll(capacity: nat, chunks: seq<Bytes>)
  {
    chunks == [] ||
    (FitsAll(capacity, chunks[..|chunks| - 1])
     && |Rest(Concat(chunks[..|chunks| - 1]))| + |chunks[|chunks| - 1]| <= capacity)
  }

  lemma ConcatSnoc(chunks: seq<Bytes>, i: nat)
    requires i < |chunks|
    ensures Concat(chunks[..i + 1]) == Concat(chunks[..i]) + chunks[i]
  {
    assert chunks[..i + 1][..i] == chunks[..i];
  }

  lemma {:induction false} FitsSnoc(capacity: nat, chunks: seq<Bytes>, i: nat)
    requires i < |chunks|
    ensures FitsAll(capacity, chunks[..i + 1]) <==>
      FitsAll(capacity, chunks[..i]) && |Rest(Concat(chunks[..i]))| + |chunks[i]| <= capacity
  {
    assert chunks[..i + 1][..i] == chunks[..i];
  }

  lemma {:induction false} FitsPrefix(capacity: nat, chunks: seq<Bytes>, i: nat)
    requires i <= |chunks| && !FitsAll(capacity, chunks[..i])
    ensures !FitsAll(capacity, chunks)
    decreases |chunks| - i
  {
    if i == |chunks| {
      assert chunks[..i] == chunks;
    } else {
      FitsSnoc(capacity, chunks, i);
      FitsPrefix(capacity, chunks, i + 1);
    }
  }
}
