/**
 The transcript buffer. Its views share its storage; this module says what a view still means
 once more messages have been written.
 */
module TranscriptBuffer {
  import opened Bytes
  import opened Codec

  const FIRST_CAPACITY := 64

  method Put(dst: array<byte>, at: nat, data: bytes)
    requires at + |data| <= dst.Length
    modifies dst
    ensures dst[..at + |data|] == old(dst[..at]) + data
    ensures dst[..at] == old(dst[..at])
  {
    forall i | 0 <= i < |data| {
      dst[at + i] := data[i];
    }
  }

  class Transcript {
    var store: array<byte>
    var used: nat
    ghost var msgs: seq<Message>

    ghost predicate Valid()
      reads this, store
    {
      used <= store.Length && store[..used] == EncodeAll(msgs)
    }

    constructor ()
      ensures Valid() && msgs == [] && fresh(store)
    {
      store, used := new byte[0], 0;
      msgs := [];
    }

    /**
     Appends a message, in place while there is room and in new storage otherwise. Either way
     the bytes a view taken earlier looks at stay as they are: it goes on reading the
     transcript it was taken of.
     */
    method Write(m: Message)
      requires Valid()
      modifies this, store
      ensures Valid() && msgs == old(msgs) + [m] && used == old(used) + |Encode(m)|
      ensures store == old(store) || fresh(store)
      ensures old(used) <= old(store).Length && old(store)[..old(used)] == EncodeAll(old(msgs))
    {
      var data := Encode(m);
      EncodeAllAppend(msgs, m);
      hide Encode;
      hide EncodeAll;
      Reserve(|data|);
      Put(store, used, data);
      used := used + |data|;
      msgs := msgs + [m];
    }

    method Reserve(n: nat)
      requires used <= store.Length
      modifies this`store
      ensures used + n <= store.Length && store[..used] == old(store[..used])
      ensures store == old(store) || fresh(store)
    {
      if used + n > store.Length {
        var grown := new byte[2 * store.Length + n + FIRST_CAPACITY](_ => 0);
        forall i | 0 <= i < used {
          grown[i] := store[i];
        }
        store := grown;
      }
    }

    /** A view: no copy, just the storage and how much of it is in use. */
    method Bytes() returns (view: array<byte>, n: nat)
      requires Valid()
      ensures view == store && n == used && n <= view.Length && view[..n] == EncodeAll(msgs)
    {
      view, n := store, used;
    }

    method Hash(sm3: bytes -> bytes) returns (digest: bytes)
      requires Valid()
      ensures digest == sm3(EncodeAll(msgs))
    {
      digest := sm3(store[..used]);
    }
  }

  /**
   A view taken before CertificateVerify or Finished is read, consumed before that message is
   written, is the current transcript; and still reads the same afterwards.
   */
  method VerifyThenWrite(t: Transcript, m: Message, verify: (bytes, bytes) -> bool) returns (ok: bool)
    requires t.Valid()
    modifies t, t.store
    ensures ok == verify(EncodeAll(old(t.msgs)), m.body)
    ensures t.Valid() && t.msgs == if ok then old(t.msgs) + [m] else old(t.msgs)
  {
    var view, n := t.Bytes();
    ok := verify(view[..n], m.body);
    if ok {
      t.Write(m);
      assert view[..n] == EncodeAll(old(t.msgs));
    }
  }
}
