/**
 The MQTT server's outgoing queue: packets are pushed whole, and each writability event sends as much
 of the head as the socket takes.
 */
module MqttQueue {
  import opened Octets

  class Packet {
    var next: Packet?
    const data: seq<byte>
    var pos: nat

    constructor (bytes: seq<byte>)
      ensures next == null && data == bytes && pos == 0
    {
      next := null;
      data := bytes;
      pos := 0;
    }
  }

  function Flat(chunks: seq<seq<byte>>): seq<byte> {
    if chunks == [] then [] else chunks[0] + Flat(chunks[1..])
  }

  lemma FlatNothing()
    ensures Flat([]) == []
  {
  }

  lemma {:induction false} FlatAppend(chunks: seq<seq<byte>>, bytes: seq<byte>)
    ensures Flat(chunks + [bytes]) == Flat(chunks) + bytes
  {
    if chunks == [] {
      assert chunks + [bytes] == [bytes];
    } else {
      assert (chunks + [bytes])[1..] == chunks[1..] + [bytes];
      FlatAppend(chunks[1..], bytes);
    }
  }

  lemma FlatRest(chunks: seq<seq<byte>>)
    requires chunks != [] && chunks[0] == []
    ensures Flat(chunks) == Flat(chunks[1..])
  {
  }

  // Sending the first k bytes of the head leaves the rest of the flow to be sent.
  lemma FlatSend(chunks: seq<seq<byte>>, k: nat)
    requires chunks != [] && k <= |chunks[0]|
    ensures Flat(chunks) == chunks[0][..k] + Flat([chunks[0][k..]] + chunks[1..])
    ensures k == |chunks[0]| ==> Flat(chunks) == chunks[0] + Flat(chunks[1..])
  {
    var rest := [chunks[0][k..]] + chunks[1..];
    assert rest[0] == chunks[0][k..] && rest[1..] == chunks[1..];
    assert chunks[0] == chunks[0][..k] + chunks[0][k..];
  }

  // What send() does with the bytes offered: take n + 1 of them or all if there are fewer, block, or fail.
  datatype SendResult = Took(n: nat) | WouldBlock | Failed

  datatype Event = Push(bytes: seq<byte>) | Writable(result: SendResult)

  class Session {
    var outpacket: Packet?
    var outpacketLast: Packet?
    var currOut: Packet?
    // Whether the poll set waits for the socket to be writable.
    var armed: bool
    // The bytes taken by the socket, and all bytes ever pushed.
    var sent: seq<byte>
    ghost var pushed: seq<byte>
    // The linked packets, and what each has still to send.
    ghost var queue: seq<Packet>
    ghost var unsent: seq<seq<byte>>
    ghost var repr: set<Packet>

    constructor ()
      ensures Valid() && repr == {} && unsent == [] && sent == [] && pushed == []
    {
      outpacket, outpacketLast, currOut := null, null, null;
      armed := false;
      sent, pushed, queue, unsent, repr := [], [], [], [], {};
      hide Flat;
      FlatNothing();
    }

    // The linked packets from outpacket on are those of queue.
    ghost predicate Linked()
      reads this`outpacket, this`outpacketLast, this`queue, this`repr, repr`next
    {
      && (forall i :: 0 <= i < |queue| ==> queue[i] in repr)
      && (forall i, j :: 0 <= i < j < |queue| ==> queue[i] != queue[j])
      && outpacket == (if queue == [] then null else queue[0])
      && (queue != [] ==> outpacketLast == queue[|queue| - 1])
      && (forall i {:trigger queue[i].next} :: 0 <= i < |queue| - 1 ==> queue[i].next == queue[i + 1])
      && (queue != [] ==> queue[|queue| - 1].next == null)
    }

    // The packet being sent is none or the head; the others have not been begun.
    ghost predicate InOrder()
      requires Linked()
      reads this`currOut, this`outpacket, this`outpacketLast, this`queue, this`unsent, this`repr, repr
    {
      && |unsent| == |queue|
      && (forall i :: 0 <= i < |queue| ==> queue[i].pos < |queue[i].data| && unsent[i] == queue[i].data[queue[i].pos..])
      && (forall i :: 0 <= i < |queue| && queue[i] != currOut ==> queue[i].pos == 0)
      && (currOut == null || (queue != [] && currOut == queue[0]))
    }

    // Every byte pushed has been sent or is queued, and in that order.
    ghost predicate Conserved()
      reads this
    {
      sent + Flat(unsent) == pushed
    }

    ghost predicate Valid()
      reads this, repr
    {
      Linked() && InOrder() && Conserved() && (armed <==> queue != [])
    }

    method PushPacket(bytes: seq<byte>)
      requires Valid() && bytes != []
      modifies this, repr
      ensures Valid() && unsent == old(unsent) + [bytes]
      ensures pushed == old(pushed) + bytes && sent == old(sent)
      ensures fresh(repr - old(repr))
    {
      hide Flat, Linked;
      var packet := new Packet(bytes);
      assert packet.data[packet.pos..] == bytes;
      Link(packet);
      FlatAppend(unsent, bytes);
      assert sent + (Flat(unsent) + bytes) == pushed + bytes;
      unsent := unsent + [bytes];
      pushed := pushed + bytes;
      armed := true;
    }

    method Link(packet: Packet)
      requires Linked() && packet !in repr && packet.next == null
      modifies this`outpacket, this`outpacketLast, this`queue, this`repr, repr`next
      ensures Linked() && queue == old(queue) + [packet] && repr == old(repr) + {packet}
    {
      if outpacket == null {
        outpacket := packet;
        outpacketLast := packet;
      } else {
        outpacketLast.next := packet;
        outpacketLast := packet;
      }
      queue := queue + [packet];
      repr := repr + {packet};
    }

    // Send from the packet in hand; 0 leaves the session open.
    method PushMsg(result: SendResult) returns (rc: int)
      requires Linked() && InOrder() && Conserved()
      modifies this`currOut, this`outpacket, this`sent, this`queue, this`unsent, repr
      ensures Linked() && InOrder() && Conserved()
      ensures rc == if old(currOut) == null || result.Failed? then -1 else 0
      ensures rc == 0 && result.Took? <==> |sent| > |old(sent)|
      ensures old(sent) <= sent
      ensures repr == old(repr)
    {
      if currOut != null {
        if result.Took? {
          var offered := |currOut.data| - currOut.pos;
          var k := if result.n < offered then result.n + 1 else offered;
          Take(k);
          if currOut.pos >= |currOut.data| {
            Release();
          }
          return 0;
        }
        if result.WouldBlock? {
          return 0;
        }
      }
      rc := -1;
    }

    method Take(k: nat)
      requires Linked() && InOrder() && Conserved()
      requires currOut != null && 0 < k <= |currOut.data| - currOut.pos
      modifies this`sent, this`unsent, currOut`pos
      ensures Linked() && Conserved() && old(sent) < sent
      ensures currOut.pos == old(currOut.pos) + k
      ensures |unsent| == |queue| && unsent[1..] == old(unsent[1..])
      ensures unsent[0] == currOut.data[currOut.pos..]
    {
      FlatSend(unsent, k);
      sent := sent + currOut.data[currOut.pos..currOut.pos + k];
      unsent := [unsent[0][k..]] + unsent[1..];
      currOut.pos := currOut.pos + k;
    }

    // The head has been sent in full.
    method Release()
      requires Linked() && Conserved() && queue != [] && |unsent| == |queue| && unsent[0] == []
      requires forall i :: 1 <= i < |queue| ==>
        queue[i].pos == 0 && 0 < |queue[i].data| && unsent[i] == queue[i].data
      modifies this`outpacket, this`currOut, this`queue, this`unsent
      ensures Linked() && InOrder() && Conserved()
      ensures queue == old(queue[1..])
    {
      hide Flat;
      FlatRest(unsent);
      ghost var before := queue;
      outpacket := outpacket.next;
      queue := queue[1..];
      unsent := unsent[1..];
      currOut := null;
      assert forall i :: 0 <= i < |queue| ==> queue[i] == before[i + 1];
    }

    // A writability event: take the head in hand if nothing is, send, and stop waiting for
    // writability when the queue has run empty.
    method OnWritable(result: SendResult) returns (rc: int)
      requires Valid() && armed
      modifies this, repr
      ensures rc == if result.Failed? then -1 else 0
      ensures rc == 0 ==> Valid()
      ensures Conserved() && pushed == old(pushed)
      ensures result.Took? <==> |sent| > |old(sent)|
      ensures old(sent) <= sent
      ensures repr == old(repr)
    {
      if currOut == null {
        currOut := outpacket;
      }
      rc := PushMsg(result);
      if rc == 0 && outpacket == null {
        armed := false;
      }
    }
  }

  function Pushes(events: seq<Event>): seq<byte> {
    if events == [] then []
    else
      var e := events[|events| - 1];
      Pushes(events[..|events| - 1]) + (if e.Push? then e.bytes else [])
  }

  lemma PushesNothing(events: seq<Event>)
    ensures Pushes(events[..0]) == []
  {
  }

  lemma PushesStep(events: seq<Event>, n: nat)
    requires n < |events|
    ensures Pushes(events[..n + 1]) == Pushes(events[..n]) + if events[n].Push? then events[n].bytes else []
  {
    assert events[..n + 1][..n] == events[..n];
  }

  // Any run: the bytes sent are a prefix of the bytes pushed, the rest is what is queued, and a
  // session that waits for nothing has sent everything. The run ends early when a send fails.
  method Run(session: Session, events: seq<Event>) returns (rc: int, n: nat)
    requires session.Valid()
    requires forall e :: e in events && e.Push? ==> e.bytes != []
    modifies session, session.repr
    ensures n <= |events| && (rc == 0 || rc == -1) && (rc == 0 ==> n == |events| && session.Valid())
    ensures session.pushed == old(session.pushed) + Pushes(events[..n])
    ensures session.sent + Flat(session.unsent) == session.pushed && session.sent <= session.pushed
    ensures old(session.sent) <= session.sent
    ensures rc == 0 && !session.armed ==> session.sent == session.pushed
  {
    hide Flat, Pushes;
    rc, n := 0, 0;
    PushesNothing(events);
    FlatNothing();
    while n < |events| && rc == 0
      invariant n <= |events| && (rc == 0 || rc == -1)
      invariant session.Conserved() && (rc == 0 ==> session.Valid())
      invariant session.pushed == old(session.pushed) + Pushes(events[..n])
      invariant old(session.sent) <= session.sent
      invariant fresh(session.repr - old(session.repr))
      decreases |events| - n
    {
      var e := events[n];
      PushesStep(events, n);
      if e.Push? {
        session.PushPacket(e.bytes);
      } else if session.armed {
        rc := session.OnWritable(e.result);
      }
      n := n + 1;
    }
  }
}
