/**
 The MQTT server's non-blocking packet reader. Each readiness event reads what the socket has; a
 payload may arrive in any number of pieces, and the session's fields carry the unfinished packet
 from one event to the next.
 */
module MqttReader {
  import opened Octets
  import opened Arithmetic
  import opened MqttCodec

  // ----- Packets on the wire -----

  datatype Packet = Packet(command: byte, payload: seq<byte>)

  // A command byte of zero would be taken for "none yet", and four bytes hold lengths below 2^28.
  predicate Sound(p: Packet) {
    p.command != 0 && |p.payload| < 0x1000_0000
  }

  function Header(p: Packet): seq<byte> {
    [p.command] + RemLen(|p.payload|)
  }

  function Wire(p: Packet): seq<byte> {
    Header(p) + p.payload
  }

  function Stream(ps: seq<Packet>): seq<byte> {
    if ps == [] then [] else Wire(ps[0]) + Stream(ps[1..])
  }

  function Wires(ps: seq<Packet>): seq<seq<byte>> {
    seq(|ps|, i requires 0 <= i < |ps| => Wire(ps[i]))
  }

  // Two packet sequences with the same bytes are the same: the framing is unambiguous.
  lemma {:induction false} FramingUnambiguous(ps: seq<Packet>, qs: seq<Packet>)
    requires Stream(ps) == Stream(qs)
    ensures ps == qs
  {
    if ps != [] && qs != [] {
      hide RemLen, RemValue;
      var p, q := ps[0], qs[0];
      var restP, restQ := p.payload + Stream(ps[1..]), q.payload + Stream(qs[1..]);
      HeaderRead(p, Stream(ps[1..]));
      HeaderRead(q, Stream(qs[1..]));
      assert restP == restQ;
      assert restP[..|p.payload|] == p.payload && restQ[..|p.payload|] == q.payload;
      assert restP[|p.payload|..] == Stream(ps[1..]) && restQ[|p.payload|..] == Stream(qs[1..]);
      FramingUnambiguous(ps[1..], qs[1..]);
    }
  }

  // The head of a flow determines the command, the length and what follows the header.
  lemma HeaderRead(p: Packet, rest: seq<byte>)
    ensures var s := Wire(p) + rest;
      s[0] == p.command && RemValue(s[1..]) == |p.payload| && s[1 + |RemLen(|p.payload|)|..] == p.payload + rest
  {
    hide RemLen, RemValue;
    RemValueOfRemLen(|p.payload|, p.payload + rest);
    assert Wire(p) + rest == [p.command] + (RemLen(|p.payload|) + (p.payload + rest));
  }

  // ----- The socket -----

  // The bytes still to come, and where the flow may pause: a read finds nothing only when the number
  // of bytes still to come is one of the pauses. The peer closes after its last byte.
  class Socket {
    var unread: seq<byte>
    const pauses: set<nat>

    constructor (bytes: seq<byte>, pauses: set<nat>)
      ensures unread == bytes && this.pauses == pauses
    {
      unread := bytes;
      this.pauses := pauses;
    }

    // rc counts the bytes read, is 0 at the end of the flow, and is -1 for a read that would block
    // and for one that failed. How many bytes a read gets is not the reader's choice.
    method Read(buf: array<byte>, at: nat, n: nat) returns (rc: int, again: bool)
      requires 0 < n && at + n <= buf.Length
      modifies this`unread, buf
      ensures -1 <= rc <= n && rc <= |old(unread)|
      ensures rc == 0 ==> unread == []
      ensures rc == -1 && again ==> |unread| in pauses
      ensures unread == old(unread)[if rc > 0 then rc else 0..]
      ensures rc > 0 ==> buf[..] == old(buf[..at]) + old(unread)[..rc] + old(buf[at + rc..])
      ensures rc <= 0 ==> buf[..] == old(buf[..])
    {
      var failed: bool := *;
      again := *;
      again := again && |unread| in pauses;
      if failed || again {
        return -1, again;
      }
      if |unread| == 0 {
        return 0, false;
      }
      var k: int := *;
      if k <= 0 || k > n || k > |unread| {
        k := 1;
      }
      Copy(buf, at, unread[..k]);
      unread := unread[k..];
      rc := k;
    }
  }

  // ----- Accumulating the length -----

  // Bitwise or of two numbers.
  function Or(a: nat, b: nat): nat
    decreases a + b
  {
    if a == 0 && b == 0 then 0
    else (if a % 2 == 1 || b % 2 == 1 then 1 else 0) + 2 * Or(a / 2, b / 2)
  }

  function Power2(k: nat): (p: nat)
    ensures p > 0
  {
    if k == 0 then 1 else 2 * Power2(k - 1)
  }

  // Or-ing in a number shifted past every bit already there is adding it.
  lemma {:induction false} OrDisjoint(a: nat, d: nat, k: nat)
    requires a < Power2(k)
    ensures Or(a, d * Power2(k)) == a + d * Power2(k)
  {
    if k == 0 {
      OrZero(d);
    } else {
      var b := d * Power2(k - 1);
      assert d * Power2(k) == 2 * b;
      OrDisjoint(a / 2, d, k - 1);
    }
  }

  lemma {:induction false} OrZero(d: nat)
    ensures Or(0, d) == d
  {
    if d > 0 {
      OrZero(d / 2);
    }
  }

  lemma Power2Septet(i: nat)
    ensures Power2(7 * (i + 1)) == 128 * Power2(7 * i)
  {
    var k := 7 * i;
    assert 7 * (i + 1) == k + 7;
    assert Power2(k + 4) == 2 * Power2(k + 3) == 4 * Power2(k + 2) == 8 * Power2(k + 1) == 16 * Power2(k);
    assert Power2(k + 7) == 2 * Power2(k + 6) == 4 * Power2(k + 5) == 8 * Power2(k + 4);
  }

  // Seven bits, shifted to the place of byte number i of the field.
  function Shifted(septet: nat, i: nat): nat {
    septet * Power2(7 * i)
  }

  // Or in the seven low bits of byte number i.
  function WithSeptet(acc: nat, b: byte, i: nat): nat {
    Or(acc, Shifted(b % 128, i))
  }

  // After i bytes of the field: what was accumulated, and what the bytes to come still stand for.
  ghost predicate LengthSoFar(n: nat, i: nat, acc: nat, m: nat) {
    acc < Power2(7 * i) && acc + Power2(7 * i) * m == n
  }

  lemma LengthStep(n: nat, i: nat, acc: nat, m: nat)
    requires LengthSoFar(n, i, acc, m)
    ensures LengthSoFar(n, i + 1, Or(acc, Shifted(m % 128, i)), m / 128)
  {
    OrDisjoint(acc, m % 128, 7 * i);
    Power2Septet(i);
    Septet(Power2(7 * i), m);
  }

  lemma Septet(p: nat, m: nat)
    ensures p * m == m % 128 * p + 128 * p * (m / 128)
    ensures m % 128 * p <= 127 * p
  {
    var d, h := m % 128, m / 128;
    assert p * m == p * d + p * (128 * h);
    ProductMonotonic(p, d, 127);
  }

  // The bytes to come after i bytes of the length field of p, when rest follows the field.
  function Left(p: Packet, rest: seq<byte>, i: nat): int {
    |RemLen(|p.payload|)| - i + |rest|
  }

  ghost predicate LengthWhole(p: Packet, rest: seq<byte>, pauses: set<nat>) {
    forall i :: 0 <= i < |RemLen(|p.payload|)| ==> Left(p, rest, i) !in pauses
  }

  // What the next length byte is and does.
  lemma LengthByte(n: nat, i: nat, acc: nat, m: nat, rest: seq<byte>)
    requires n < 0x1000_0000 && LengthSoFar(n, i, acc, m) && i + |RemLen(m)| == |RemLen(n)|
    ensures var b := RemLen(m) + rest;
      var next := WithSeptet(acc, b[0], i);
      if b[0] < 128 then
        next == n && i + 1 == |RemLen(n)| && b[1..] == rest
      else
        && LengthSoFar(n, i + 1, next, m / 128) && i + 1 < 4
        && i + 1 + |RemLen(m / 128)| == |RemLen(n)| && b[1..] == RemLen(m / 128) + rest
  {
    hide Or, Shifted, Power2, LengthSoFar, RemLen;
    assert |RemLen(n)| <= 4 by { RemLenSize(n); }
    LengthStep(n, i, acc, m);
    FirstDigit(m, rest);
    if m < 128 {
      LengthDone(n, i + 1, WithSeptet(acc, m, i));
    }
  }

  // The first byte of a length field, and the rest of it.
  lemma FirstDigit(m: nat, rest: seq<byte>)
    ensures var b := RemLen(m) + rest;
      if m < 128 then
        b[0] == m == m % 128 && m / 128 == 0 && |RemLen(m)| == 1 && b[1..] == rest
      else
        && b[0] >= 128 && b[0] % 128 == m % 128
        && |RemLen(m)| == 1 + |RemLen(m / 128)| && b[1..] == RemLen(m / 128) + rest
  {
    hide RemLen;
    RemLenUnfolded(m);
    if m < 128 {
      DivModUnique(m, 128, 0, m);
    } else {
      DivModUnique(128 + m % 128, 128, 1, m % 128);
    }
  }

  lemma LengthDone(n: nat, i: nat, acc: nat)
    requires LengthSoFar(n, i, acc, 0)
    ensures acc == n
  {
  }

  // ----- The session -----

  // Where the bytes of header j of the stream leave off after i of its bytes.
  function Inside(ps: seq<Packet>, j: nat, i: nat): int
    requires j < |ps|
  {
    |Stream(ps[j..])| - i
  }

  ghost predicate HeadersArriveWhole(ps: seq<Packet>, pauses: set<nat>) {
    forall j, i :: 0 <= j < |ps| && 0 < i < |Header(ps[j])| ==> Inside(ps, j, i) !in pauses
  }

  class Session {
    var command: byte
    var remLength: nat
    var remByteSize: int
    var remNeed: int
    var pos: int
    var dlen: int
    var data: array<byte>
    // The packets handed to the dispatcher so far, as it saw them.
    var dispatched: seq<seq<byte>>
    // What the peer sends, and how many of its packets have been dispatched.
    ghost const packets: seq<Packet>
    ghost var count: nat

    constructor (ghost packets: seq<Packet>)
      ensures Idle() && dispatched == [] && count == 0 && this.packets == packets
    {
      command, remLength, remByteSize, remNeed, pos, dlen := 0, 0, 0, 0, 0, 0;
      data := new byte[0];
      dispatched := [];
      count := 0;
      this.packets := packets;
    }

    ghost predicate Idle()
      reads this
    {
      command == 0 && remLength == 0 && remByteSize == 0 && remNeed == 0 && pos == 0
    }

    // The header of p has been read, and pos bytes of the packet are in data.
    ghost predicate Reading(p: Packet)
      reads this, data
    {
      && command == p.command && remByteSize == |RemLen(|p.payload|)|
      && dlen == data.Length == |Wire(p)|
      && |Header(p)| <= pos && remNeed >= 0 && pos + remNeed == dlen
      && data[..pos] == Wire(p)[..pos]
    }

    ghost predicate Logged()
      reads this
    {
      count <= |packets| && dispatched == Wires(packets[..count])
    }

    // Every byte sent is in a dispatched packet, in data, or still to come.
    ghost predicate Valid(sock: Socket)
      reads this, data, sock
    {
      && (forall p :: p in packets ==> Sound(p))
      && HeadersArriveWhole(packets, sock.pauses)
      && Logged()
      && ((Idle() && sock.unread == Stream(packets[count..]))
          || (count < |packets| && Reading(packets[count]) && remNeed > 0
              && sock.unread == Wire(packets[count])[pos..] + Stream(packets[count + 1..])))
    }

    // One readiness event. 0 leaves the session open, -1 ends it; the check that would give -402
    // never fires.
    method ReadMessage(sock: Socket) returns (rc: int)
      requires Valid(sock)
      modifies this, data, sock`unread
      ensures rc == 0 || rc == -1
      ensures rc == 0 ==> Valid(sock)
      ensures rc == -1 && sock.unread == [] ==> count == |packets|
      ensures Logged() && old(count) <= count <= old(count) + 1
      ensures data == old(data) || fresh(data)
    {
      hide Header, RemLen, Wires, Wire, Stream, HeadersArriveWhole;
      rc := 1;
      if remByteSize <= 0 {
        rc := ReadHeader(sock);
      }
      if rc == 1 {
        rc := ReadPayload(sock, packets[count], Stream(packets[count + 1..]));
      }
      if rc == 1 {
        Dispatch();
        rc := 0;
      }
    }

    // 1 when the header has been read, 0 when no packet has begun.
    method ReadHeader(sock: Socket) returns (rc: int)
      requires Valid(sock) && Idle()
      modifies this`command, this`remLength, this`remByteSize, this`remNeed, this`pos, this`dlen, this`data, sock`unread
      ensures rc == 1 || rc == 0 || rc == -1
      ensures rc == 0 ==> Valid(sock) && Idle()
      ensures rc == -1 && sock.unread == [] ==> count == |packets|
      ensures rc == 1 ==> count < |packets| && Reading(packets[count])
      ensures rc == 1 ==> sock.unread == Wire(packets[count])[pos..] + Stream(packets[count + 1..])
      ensures data == old(data) || fresh(data)
    {
      hide RemLen, HeadersArriveWhole;
      var one := new byte[1];
      var again;
      NextPacket(sock.unread);
      if command == 0 {
        rc, again := sock.Read(one, 0, 1);
        if rc == 1 {
          command := one[0];
        } else if rc == 0 {
          return -1;
        } else {
          return if again then 0 else -1;
        }
      }
      ghost var p, rest := packets[count], Stream(packets[count + 1..]);
      assert sock.unread == RemLen(|p.payload|) + (p.payload + rest);
      LengthArrivesWhole(sock.pauses);
      rc := ReadLength(sock, p, p.payload + rest);
      if rc == 1 {
        StartPayload(p);
        assert Wire(p)[pos..] == p.payload;
      }
    }

    method Dispatch()
      requires Logged() && count < |packets| && Reading(packets[count]) && pos == dlen
      modifies this`command, this`remLength, this`remByteSize, this`remNeed, this`pos, this`dispatched, this`count
      ensures Logged() && Idle() && count == old(count) + 1
    {
      hide Header, RemLen, Wire;
      assert data[..pos] == Wire(packets[count]);
      assert Wires(packets[..count + 1]) == Wires(packets[..count]) + [Wire(packets[count])];
      dispatched := dispatched + [data[..pos]];
      count := count + 1;
      pos, command, remByteSize, remLength, remNeed := 0, 0, 0, 0, 0;
    }

    // At a packet boundary the bytes to come are the next packet's, or none.
    lemma NextPacket(unread: seq<byte>)
      requires count <= |packets| && unread == Stream(packets[count..])
      ensures count == |packets| ==> unread == []
      ensures count < |packets| ==>
        var p := packets[count];
        unread == [p.command] + (RemLen(|p.payload|) + (p.payload + Stream(packets[count + 1..])))
    {
      var ps := packets[count..];
      if ps != [] {
        assert ps[0] == packets[count] && ps[1..] == packets[count + 1..];
      }
    }

    lemma LengthArrivesWhole(pauses: set<nat>)
      requires count < |packets| && HeadersArriveWhole(packets, pauses)
      ensures LengthWhole(packets[count], packets[count].payload + Stream(packets[count + 1..]), pauses)
    {
      var p, rest := packets[count], packets[count].payload + Stream(packets[count + 1..]);
      NextPacket(Stream(packets[count..]));
      forall i | 0 <= i < |RemLen(|p.payload|)|
        ensures Left(p, rest, i) !in pauses
      {
        assert Left(p, rest, i) == Inside(packets, count, i + 1);
      }
    }

    // The length field of n has been read in part: m is what its remaining bytes stand for.
    ghost predicate InLength(sock: Socket, n: nat, m: nat, rest: seq<byte>)
      reads this, sock
    {
      && n < 0x1000_0000 && remByteSize <= 0
      && LengthSoFar(n, -remByteSize, remLength, m)
      && sock.unread == RemLen(m) + rest && -remByteSize + |RemLen(m)| == |RemLen(n)|
    }

    ghost predicate LengthRead(sock: Socket, n: nat, rest: seq<byte>)
      reads this, sock
    {
      remLength == n && remByteSize == |RemLen(n)| && sock.unread == rest
    }

    // The length bytes, low ones first; remByteSize counts them downwards until the last is in.
    method ReadLength(sock: Socket, ghost p: Packet, ghost rest: seq<byte>) returns (rc: int)
      requires Sound(p) && remByteSize == 0 && remLength == 0
      requires sock.unread == RemLen(|p.payload|) + rest
      requires LengthWhole(p, rest, sock.pauses)
      modifies this`remLength, this`remByteSize, sock`unread
      ensures rc == 1 || rc == -1
      ensures rc == 1 ==> LengthRead(sock, |p.payload|, rest)
      ensures rc == -1 ==> sock.unread != []
    {
      ghost var n, m: nat := |p.payload|, |p.payload|;
      assert LengthSoFar(n, 0, 0, n);
      hide LengthSoFar, RemLen, LengthWhole;
      assert InLength(sock, n, m, rest);
      rc := 1;
      while remByteSize <= 0 && rc == 1
        invariant rc == 1 || rc == -1
        invariant rc == 1 ==> if remByteSize <= 0 then InLength(sock, n, m, rest) else LengthRead(sock, n, rest)
        invariant rc == -1 ==> sock.unread != []
        decreases rc == 1 && remByteSize <= 0, |sock.unread|
      {
        rc := ReadLengthByte(sock, p, m, rest);
        m := m / 128;
      }
    }

    // A byte that is not there would give 0 and end the loop, but only with a header cut in two.
    method ReadLengthByte(sock: Socket, ghost p: Packet, ghost m: nat, ghost rest: seq<byte>) returns (rc: int)
      requires InLength(sock, |p.payload|, m, rest) && LengthWhole(p, rest, sock.pauses)
      modifies this`remLength, this`remByteSize, sock`unread
      ensures rc == 1 || rc == -1
      ensures rc == 1 ==> |sock.unread| < |old(sock.unread)|
      ensures rc == -1 ==> sock.unread != []
      ensures rc == 1 ==>
        if remByteSize <= 0 then InLength(sock, |p.payload|, m / 128, rest) else LengthRead(sock, |p.payload|, rest)
    {
      var one := new byte[1];
      ghost var n, i: nat := |p.payload|, -remByteSize;
      LengthByte(n, i, remLength, m, rest);
      hide WithSeptet, LengthSoFar, RemLen;
      assert |sock.unread| == Left(p, rest, i);
      var again;
      rc, again := sock.Read(one, 0, 1);
      assert rc == -1 ==> !again;
      if rc == 1 {
        remLength := WithSeptet(remLength, one[0], -remByteSize);
        remByteSize := remByteSize - 1;
        if remByteSize <= -4 || one[0] < 128 {
          remByteSize := -remByteSize;
        }
      } else if rc == 0 {
        rc := -1;
      } else if again {
        rc := 0;
      } else {
        rc := -1;
      }
    }

    // Make room for the packet and put its header there again.
    method StartPayload(ghost p: Packet)
      requires command == p.command && remLength == |p.payload| && remByteSize == |RemLen(|p.payload|)|
      modifies this`pos, this`dlen, this`data, this`remNeed
      ensures fresh(data) && Reading(p) && pos == |Header(p)|
    {
      hide RemLen;
      pos := 1 + remByteSize;
      dlen := 1 + remByteSize + remLength;
      data := new byte[dlen];
      data[0] := command;
      var siz := RemainLen2Bytes(remLength, data, 1);
      assert data[..pos] == Header(p);
      remNeed := remLength;
    }

    // 1 when the packet is complete, 0 when the socket has nothing more for now.
    method ReadPayload(sock: Socket, ghost p: Packet, ghost rest: seq<byte>) returns (rc: int)
      requires Reading(p) && sock.unread == Wire(p)[pos..] + rest
      modifies this`pos, this`remNeed, data, sock`unread
      ensures rc == 1 || rc == 0 || rc == -1
      ensures Reading(p) && sock.unread == Wire(p)[pos..] + rest
      ensures rc == 1 ==> pos == dlen
      ensures rc != 1 ==> remNeed > 0
    {
      hide Header, RemLen, Wire;
      while remNeed > 0
        invariant Reading(p) && sock.unread == Wire(p)[pos..] + rest
        decreases remNeed
      {
        ghost var unread, at := sock.unread, pos;
        var left;
        left, rc := ReadTurn(sock);
        if left {
          return;
        }
        Arrived(Wire(p), at, pos - at, rest, unread);
      }
      rc := 1;
    }

    // The fields agree with the buffer they read into.
    ghost predicate Consistent()
      reads this
    {
      0 <= pos && 0 <= remNeed && pos + remNeed == dlen == data.Length
    }

    // One turn of the payload loop. It leaves the loop when nothing can be read for now or the read
    // fails, takes what there is, and at the end of the flow does nothing at all.
    method ReadTurn(sock: Socket) returns (left: bool, rc: int)
      requires Consistent() && remNeed > 0
      modifies this`pos, this`remNeed, data, sock`unread
      ensures Consistent() && old(pos) <= pos
      ensures var k := pos - old(pos);
        && k <= |old(sock.unread)| && sock.unread == old(sock.unread)[k..]
        && data[..pos] == old(data[..pos]) + old(sock.unread)[..k]
      ensures left ==> (rc == 0 || rc == -1) && pos == old(pos)
      ensures !left && old(sock.unread) == [] ==> pos == old(pos) && data[..] == old(data[..])
      ensures !left && old(sock.unread) != [] ==> remNeed < old(remNeed)
    {
      if pos + remNeed > dlen {
        return true, -402;
      }
      var again;
      rc, again := sock.Read(data, pos, remNeed);
      left := false;
      if rc > 0 {
        remNeed := remNeed - rc;
        pos := pos + rc;
      } else if rc == 0 {
        rc := -1;
      } else {
        return true, if again then 0 else -1;
      }
    }

    // The loop for n turns, or until it is over. Unless a read blocks or fails it is over within
    // remNeed turns when the peer still sends all that is missing, and otherwise after no number of them.
    method Turns(sock: Socket, n: nat) returns (left: bool)
      requires Consistent()
      modifies this`pos, this`remNeed, data, sock`unread
      ensures !left && old(remNeed) <= |old(sock.unread)| && old(remNeed) <= n ==> remNeed == 0
      ensures !left && old(remNeed) > |old(sock.unread)| ==> remNeed > 0
    {
      ghost var missing := remNeed - |sock.unread|;
      left := false;
      var k := 0;
      while k < n && remNeed > 0 && !left
        invariant k <= n && Consistent() && remNeed - |sock.unread| == missing
        invariant !left && missing <= 0 ==> remNeed <= old(remNeed) - k || remNeed == 0
        decreases n - k
      {
        var rc;
        left, rc := ReadTurn(sock);
        k := k + 1;
      }
    }
  }

  // The next k bytes of the flow extend what has been read of w.
  lemma Arrived(w: seq<byte>, pos: nat, k: nat, rest: seq<byte>, unread: seq<byte>)
    requires pos + k <= |w| && unread == w[pos..] + rest
    ensures w[..pos] + unread[..k] == w[..pos + k]
    ensures unread[k..] == w[pos + k..] + rest
  {
  }

  // Any number of readiness events, with whatever the socket does in each. The packets dispatched
  // are the first ones sent, each once, in order and byte for byte; once everything sent has been
  // read, they are all of them.
  method Serve(session: Session, sock: Socket, events: nat) returns (rc: int)
    requires session.Valid(sock)
    modifies session, session.data, sock
    ensures rc == 0 || rc == -1
    ensures session.Logged() && session.count <= old(session.count) + events
    ensures sock.unread == [] ==> session.dispatched == Wires(session.packets)
  {
    hide Wires, Wire, Stream;
    rc := 0;
    var n := 0;
    while n < events && rc == 0
      invariant n <= events && (rc == 0 || rc == -1)
      invariant session.Logged() && session.count <= old(session.count) + n
      invariant rc == 0 ==> session.Valid(sock)
      invariant rc == -1 && sock.unread == [] ==> session.count == |session.packets|
      invariant session.data == old(session.data) || fresh(session.data)
      decreases events - n
    {
      rc := session.ReadMessage(sock);
      n := n + 1;
    }
    if |sock.unread| == 0 {
      ghost var k := session.count;
      if k < |session.packets| {
        StreamEmpty(session.packets[k..]);
        assert false;
      }
      assert session.packets[..k] == session.packets;
    }
  }

  lemma StreamEmpty(ps: seq<Packet>)
    requires ps != []
    ensures Stream(ps) != []
  {
    assert Stream(ps)[0] == ps[0].command;
  }
}
