/** Pipes (src/pipe.c), and the receiving side of a connected socket with its blocked reader
    (src/socket.c, src/syscall.c). */
module Streams {
  import opened Bytes
  import opened ByteRing

  const EAGAIN := -11
  const EBADF := -9
  const EPIPE := -32
  const SIZE := 65536

  class Pipe {
    const ring: Ring
    var used: bool
    var readOpen: bool
    var writeOpen: bool

    ghost predicate Valid()
      reads this, ring, ring.buf
    {
      ring.Valid() && ring.buf.Length == SIZE
    }

    /** pipe_create */
    constructor ()
      ensures Valid() && fresh(ring) && fresh(ring.buf) && used && readOpen && writeOpen && ring.Contents() == []
    {
      ring := new Ring(SIZE);
      used, readOpen, writeOpen := true, true, true;
    }

    /** pipe_write: as much as there is room for. */
    method Write(data: seq<Byte>) returns (result: int)
      requires Valid()
      modifies ring, ring.buf
      ensures Valid()
      ensures if !used || !writeOpen then result == EBADF && ring.Contents() == old(ring.Contents())
              else if !readOpen then result == EPIPE && ring.Contents() == old(ring.Contents())
              else
                && result == Min(|data|, SIZE - 1 - |old(ring.Contents())|)
                && ring.Contents() == old(ring.Contents()) + data[..result]
    {
      if !used || !writeOpen {
        return EBADF;
      }
      if !readOpen {
        return EPIPE;
      }
      result := ring.Write(data);
    }

    /** pipe_read: 0 stands for the end of the stream and for "nothing yet" alike. */
    method Read(length: nat) returns (result: int, data: seq<Byte>)
      requires Valid()
      modifies ring
      ensures Valid()
      ensures if !used || !readOpen then result == EBADF && data == [] && ring.Contents() == old(ring.Contents())
              else
                && result == |data| == Min(length, |old(ring.Contents())|)
                && old(ring.Contents()) == data + ring.Contents()
    {
      data := [];
      if !used || !readOpen {
        return EBADF, data;
      }
      data := ring.Read(length);
      result := |data|;
    }
  }

  /** The endpoint that receives, with the reader that sys_recv put to sleep on it. */
  class Endpoint {
    const ring: Ring
    var hasPeer: bool
    var peerClosed: bool
    var readWaiter: int
    var waiting: bool
    var readLength: nat
    /** The bytes taken over from senders, and those given to readers. */
    ghost var accepted: seq<Byte>
    ghost var delivered: seq<Byte>

    predicate Registered()
      reads this
    {
      readWaiter >= 0 && waiting
    }

    /** A blocked reader means an empty ring, and no byte is lost, made up or out of order. */
    ghost predicate Valid()
      reads this, ring, ring.buf
    {
      && ring.Valid() && ring.buf.Length == SIZE
      && (Registered() ==> ring.Contents() == [] && readLength > 0)
      && accepted == delivered + ring.Contents()
    }

    /** A connected endpoint. */
    constructor ()
      ensures Valid() && fresh(ring) && fresh(ring.buf) && accepted == [] && hasPeer && !peerClosed && !Registered()
    {
      ring := new Ring(SIZE);
      hasPeer, peerClosed, readWaiter, waiting, readLength := true, false, -1, false, 0;
      accepted, delivered := [], [];
    }

    /** socket_recv */
    method Receive(length: nat, peek: bool) returns (result: int, data: seq<Byte>)
      requires Valid()
      modifies this`delivered, ring
      ensures Valid() && |data| == Min(length, |old(ring.Contents())|) && data <= old(ring.Contents())
      ensures peek ==> ring.Contents() == old(ring.Contents()) && delivered == old(delivered)
      ensures !peek ==> old(ring.Contents()) == data + ring.Contents() && delivered == old(delivered) + data
      ensures result == if length == 0 || data != [] then |data| else if !hasPeer || peerClosed then 0 else EAGAIN
    {
      data := [];
      if length == 0 {
        return 0, data;
      }
      if peek {
        data := ring.Peek(length);
      } else {
        data := ring.Read(length);
        delivered := delivered + data;
      }
      if |data| > 0 {
        return |data|, data;
      }
      result := if !hasPeer || peerClosed then 0 else EAGAIN;
    }

    /** sys_recv on a blocking descriptor: the reader in `slot` goes to sleep when there is nothing. */
    method ReceiveOrBlock(length: nat, peek: bool, slot: nat) returns (result: int, data: seq<Byte>, blocked: bool)
      requires Valid()
      modifies this, ring
      ensures Valid() && accepted == old(accepted) && hasPeer == old(hasPeer) && peerClosed == old(peerClosed)
      ensures blocked <==> length > 0 && old(ring.Contents()) == [] && hasPeer && !peerClosed
      ensures blocked ==> data == [] && Registered() && readWaiter == slot && readLength == length
      ensures !blocked ==> |data| == Min(length, |old(ring.Contents())|) && data <= old(ring.Contents())
      ensures !blocked ==> readWaiter == old(readWaiter) && waiting == old(waiting) && readLength == old(readLength)
      ensures peek ==> ring.Contents() == old(ring.Contents()) && delivered == old(delivered)
      ensures !peek ==> old(ring.Contents()) == data + ring.Contents() && delivered == old(delivered) + data
    {
      result, data := Receive(length, peek);
      blocked := result == EAGAIN;
      if blocked {
        readWaiter, readLength, waiting := slot, length, true;
      }
    }

    /** socket_shutdown of the sending side. */
    method Shutdown() returns (woken: int)
      requires Valid()
      modifies this`peerClosed, this`readWaiter
      ensures Valid() && peerClosed && !Registered() && woken == if old(readWaiter) >= 0 then old(readWaiter) else -1
    {
      peerClosed := true;
      woken := -1;
      if readWaiter >= 0 {
        woken := readWaiter;
        readWaiter := -1;
      }
    }

    /** The reader is released. */
    method Unregister() returns (slot: int)
      modifies this`readWaiter, this`waiting, this`readLength
      ensures slot == old(readWaiter) && !Registered()
    {
      slot := readWaiter;
      readWaiter, waiting, readLength := -1, false, 0;
    }

    /** How much of the data goes straight to the blocked reader. */
    function Handed(n: nat, copied: bool): nat
      reads this
    {
      if Registered() && copied then Min(n, readLength) else 0
    }

    /** The first half of socket_send: the copy into the buffer of a blocked reader. */
    method HandOver(data: seq<Byte>, copied: bool) returns (handed: nat, woken: int)
      requires Valid()
      modifies this
      ensures Valid() && handed == old(Handed(|data|, copied)) && peerClosed == old(peerClosed)
      ensures hasPeer == old(hasPeer)
      ensures delivered == old(delivered) + data[..handed] && accepted == old(accepted) + data[..handed]
      ensures woken == (if handed > 0 then old(readWaiter) else -1)
      ensures if handed > 0 then !Registered() else Registered() == old(Registered()) && readWaiter == old(readWaiter)
    {
      handed, woken := 0, -1;
      if readWaiter >= 0 && waiting {
        var toCopy := Min(|data|, readLength);
        if toCopy > 0 && copied {
          handed := toCopy;
          delivered := delivered + data[..toCopy];
          accepted := accepted + data[..toCopy];
          woken := Unregister();
        }
      }
    }

    /** The second half: the rest goes into the ring, and a reader still there is woken. */
    method Enqueue(data: seq<Byte>) returns (written: nat, woken: int)
      requires Valid()
      modifies this, ring, ring.buf
      ensures Valid() && written == Min(|data|, SIZE - 1 - |old(ring.Contents())|)
      ensures peerClosed == old(peerClosed) && hasPeer == old(hasPeer)
      ensures ring.Contents() == old(ring.Contents()) + data[..written]
      ensures accepted == old(accepted) + data[..written] && delivered == old(delivered)
      ensures woken == (if old(Registered()) && written > 0 then old(readWaiter) else -1)
      ensures Registered() == (old(Registered()) && written == 0)
    {
      woken := -1;
      written := ring.Write(data);
      accepted := accepted + data[..written];
      Assoc(delivered, old(ring.Contents()), data[..written]);
      if written > 0 && readWaiter >= 0 && waiting {
        woken := Unregister();
      }
    }

    /** socket_send to this endpoint; `copied` is whether the copy into the blocked reader works. */
    method Accept(data: seq<Byte>, copied: bool) returns (result: int, woken: int, value: nat)
      requires Valid()
      modifies this, ring, ring.buf
      ensures Valid() && peerClosed == old(peerClosed) && hasPeer == old(hasPeer)
      ensures peerClosed ==> result == EPIPE && woken == -1 && ring.Contents() == old(ring.Contents())
      ensures peerClosed ==>
        accepted == old(accepted) && delivered == old(delivered) && Registered() == old(Registered())
      ensures !peerClosed ==>
        var handed := old(Handed(|data|, copied));
        var stored := Min(|data| - handed, SIZE - 1 - |old(ring.Contents())|);
        && delivered == old(delivered) + data[..handed]
        && ring.Contents() == old(ring.Contents()) + data[handed..handed + stored]
        && accepted == old(accepted) + data[..handed + stored]
        && result == (if 0 < |data| == handed then handed else if stored == 0 then EAGAIN else stored)
        && (woken != -1 <==> old(Registered()) && handed + stored > 0)
        && (woken != -1 ==> woken == old(readWaiter) && value == if handed > 0 then handed else stored)
        && (old(Registered()) ==> (Registered() <==> woken == -1))
    {
      woken, value := -1, 0;
      if peerClosed {
        return EPIPE, woken, value;
      }
      var handed;
      handed, woken := HandOver(data, copied);
      value := handed;
      if 0 < handed == |data| {
        assert data[handed..handed] == [];
        return handed, woken, value;
      }
      var written, slot := Enqueue(data[handed..]);
      Parts(data, handed, written, old(accepted));
      if slot != -1 {
        woken, value := slot, written;
      }
      result := if written == 0 then EAGAIN else written;
    }
  }

  // ----- peeking -----

  /** The queue after a send with no reader blocked. */
  function Queued(c: seq<Byte>, data: seq<Byte>, closed: bool): seq<Byte>
    requires |c| < SIZE
  {
    if closed then c else c + data[..Min(|data|, SIZE - 1 - |c|)]
  }

  /** What a read of n bytes gets from queue c. */
  function Front(c: seq<Byte>, n: nat): seq<Byte> { c[..Min(n, |c|)] }

  /** A receive of `length` bytes goes to sleep. */
  predicate Sleeps(c: seq<Byte>, length: nat, hasPeer: bool, closed: bool) {
    length > 0 && c == [] && hasPeer && !closed
  }

  /** How many of k bytes sent the peeking reader takes with it. */
  function Gone(c: seq<Byte>, length: nat, k: nat, hasPeer: bool, closed: bool, copied: bool): nat {
    if Sleeps(c, length, hasPeer, closed) && copied then Min(k, length) else 0
  }

  /** socket_send, as seen from the queue. */
  method Send(e: Endpoint, data: seq<Byte>, copied: bool)
    requires e.Valid()
    modifies e, e.ring, e.ring.buf
    ensures e.Valid() && |old(e.ring.Contents())| < SIZE
    ensures var gone := if old(e.peerClosed) then 0 else old(e.Handed(|data|, copied));
      e.ring.Contents() == Queued(old(e.ring.Contents()), data[gone..], old(e.peerClosed))
  {
    ghost var c, gone := e.ring.Contents(), if e.peerClosed then 0 else e.Handed(|data|, copied);
    var sent, woken, value := e.Accept(data, copied);
    Parts(data, gone, Min(|data| - gone, SIZE - 1 - |c|), []);
  }

  /** A read, as seen from the queue. */
  method Get(e: Endpoint, n: nat) returns (got: seq<Byte>)
    requires e.Valid()
    modifies e`delivered, e.ring
    ensures e.Valid() && got == Front(old(e.ring.Contents()), n)
  {
    var result;
    result, got := e.Receive(n, false);
  }

  /** A send, then a read. */
  method SendRead(e: Endpoint, data: seq<Byte>, copied: bool, n: nat) returns (got: seq<Byte>)
    requires e.Valid() && !e.Registered()
    modifies e, e.ring, e.ring.buf
    ensures e.Valid() && |old(e.ring.Contents())| < SIZE
    ensures got == Front(Queued(old(e.ring.Contents()), data, old(e.peerClosed)), n)
  {
    assert data[0..] == data;
    Send(e, data, copied);
    got := Get(e, n);
  }

  /** A peek, then a send, then a read. */
  method PeekSendRead(e: Endpoint, length: nat, slot: nat, data: seq<Byte>, copied: bool, n: nat)
    returns (got: seq<Byte>)
    requires e.Valid() && !e.Registered()
    modifies e, e.ring, e.ring.buf
    ensures e.Valid() && |old(e.ring.Contents())| < SIZE
    ensures var gone := Gone(old(e.ring.Contents()), length, |data|, old(e.hasPeer), old(e.peerClosed), copied);
      got == Front(Queued(old(e.ring.Contents()), data[gone..], old(e.peerClosed)), n)
  {
    var result, seen, blocked := e.ReceiveOrBlock(length, true, slot);
    Send(e, data, copied);
    got := Get(e, n);
  }

  /** A peek before the send makes no difference to the read, whatever is sent, exactly when the
      peek does not sleep, or the copy to the sleeper fails, or nothing is sent or read. */
  lemma {:induction false} PeekHarmless(c: seq<Byte>, length: nat, k: nat, hasPeer: bool, closed: bool, copied: bool,
                                        n: nat)
    requires |c| < SIZE
    ensures (forall data: seq<Byte> :: |data| == k ==>
               SameRead(c, data, Gone(c, length, k, hasPeer, closed, copied), closed, n))
       <==> !(Sleeps(c, length, hasPeer, closed) && copied && k > 0 && n > 0)
  {
    var gone := Gone(c, length, k, hasPeer, closed, copied);
    if gone == 0 || n == 0 {
      forall data: seq<Byte> | |data| == k ensures SameRead(c, data, gone, closed, n) {
        assert gone == 0 ==> data[gone..] == data;
      }
    } else {
      var data := Telling(k, gone, n);
      assert !SameRead(c, data, gone, closed, n);
    }
  }

  /** Data whose first byte is missed. */
  lemma {:induction false} Telling(k: nat, gone: nat, n: nat) returns (data: seq<Byte>)
    requires 0 < gone <= k && n > 0
    ensures |data| == k && !SameRead([], data, gone, false, n)
  {
    data := [1] + seq(k - 1, _ => 0);
    var whole, rest := Front(Queued([], data, false), n), Front(Queued([], data[gone..], false), n);
    assert |whole| > 0 && whole[0] == 1;
    assert |rest| > 0 ==> rest[0] == data[gone];
  }

  /** The read gets the same whether or not the first `gone` bytes sent went elsewhere. */
  predicate SameRead(c: seq<Byte>, data: seq<Byte>, gone: nat, closed: bool, n: nat)
    requires |c| < SIZE && gone <= |data|
  {
    Front(Queued(c, data[gone..], closed), n) == Front(Queued(c, data, closed), n)
  }

  /** A reader that blocks in a peek is handed its bytes like any other: all of them are gone. */
  method PeekConsumes(e: Endpoint, n: nat, slot: nat, data: seq<Byte>) returns (got: seq<Byte>)
    requires e.Valid() && e.ring.Contents() == [] && e.hasPeer && !e.peerClosed && 0 < |data| <= n
    modifies e, e.ring, e.ring.buf
    ensures e.Valid() && got == [] && e.delivered == old(e.delivered) + data && e.accepted == old(e.accepted) + data
  {
    ghost var delivered := e.delivered;
    var result, seen, blocked := e.ReceiveOrBlock(n, true, slot);
    PeekThenSend(e, data);
    ghost var all := delivered + data;
    result, got := e.Receive(n, false);
    assert |got| == 0 && all + [] == all;
  }

  method PeekThenSend(e: Endpoint, data: seq<Byte>)
    requires e.Valid() && e.Registered() && !e.peerClosed && 0 < |data| <= e.readLength
    modifies e, e.ring, e.ring.buf
    ensures e.Valid() && e.ring.Contents() == []
    ensures e.delivered == old(e.delivered) + data && e.accepted == old(e.accepted) + data
  {
    var sent, woken, value := e.Accept(data, true);
    assert data[..|data|] == data && data[|data|..|data|] == [];
  }

  lemma {:induction false} Parts(data: seq<Byte>, i: nat, n: nat, before: seq<Byte>)
    requires i + n <= |data|
    ensures data[i..][..n] == data[i..i + n]
    ensures before + data[..i] + data[i..][..n] == before + data[..i + n]
  {
    assert data[..i] + data[i..i + n] == data[..i + n];
    Assoc(before, data[..i], data[i..i + n]);
  }
}
