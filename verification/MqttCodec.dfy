/**
 The MQTT packet codec: the variable-length Remaining Length field (section 2.2.3 of MQTT 3.1.1),
 the two publish builders, and the parsers, with the 8- and 16-bit truncations of the code.
 */
module MqttCodec {
  import opened Octets
  import opened Arithmetic
  import opened Options

  // ----- Remaining Length -----

  // Seven bits a byte, low bits first, the top bit set on every byte but the last.
  function RemLen(n: nat): (b: seq<byte>)
    ensures b != []
  {
    if n < 128 then [n] else [128 + n % 128] + RemLen(n / 128)
  }

  lemma RemLenUnfolded(n: nat)
    ensures n < 128 ==> RemLen(n) == [n]
    ensures n >= 128 ==> RemLen(n) == [128 + n % 128] + RemLen(n / 128)
  {
  }

  // The number that leading bytes with the top bit set, and the first without, stand for.
  function RemValue(b: seq<byte>): nat {
    if b == [] then 0
    else b[0] % 128 + (if b[0] < 128 then 0 else 128 * RemValue(b[1..]))
  }

  lemma {:induction false} RemValueOfRemLen(n: nat, rest: seq<byte>)
    ensures RemValue(RemLen(n) + rest) == n
  {
    if n >= 128 {
      RemValueOfRemLen(n / 128, rest);
      assert (RemLen(n) + rest)[1..] == RemLen(n / 128) + rest;
    }
  }

  // Every byte but the last has its top bit set.
  lemma {:induction false} RemLenFlags(n: nat, i: nat)
    requires i < |RemLen(n)|
    ensures RemLen(n)[i] < 128 <==> i == |RemLen(n)| - 1
  {
    if n >= 128 && i > 0 {
      RemLenFlags(n / 128, i - 1);
    }
  }

  // The limits of each size, and the worked example: section 2.2.3 of MQTT 3.1.1.
  lemma RemLenExamples()
    ensures RemLen(0) == [0x00] && RemLen(127) == [0x7f]
    ensures RemLen(128) == [0x80, 0x01] && RemLen(321) == [65 + 128, 2] && RemLen(16_383) == [0xff, 0x7f]
    ensures RemLen(16_384) == [0x80, 0x80, 0x01] && RemLen(2_097_151) == [0xff, 0xff, 0x7f]
    ensures RemLen(2_097_152) == [0x80, 0x80, 0x80, 0x01] && RemLen(268_435_455) == [0xff, 0xff, 0xff, 0x7f]
  {
  }

  // The number of bytes, by range of length.
  lemma RemLenSize(n: nat)
    ensures n < 0x80 <==> |RemLen(n)| == 1
    ensures 0x80 <= n < 0x4000 <==> |RemLen(n)| == 2
    ensures 0x4000 <= n < 0x20_0000 <==> |RemLen(n)| == 3
    ensures 0x20_0000 <= n < 0x1000_0000 <==> |RemLen(n)| == 4
  {
    if n >= 0x80 {
      var n1 := n / 128;
      assert RemLen(n) == [128 + n % 128] + RemLen(n1);
      if n1 >= 0x80 {
        var n2 := n1 / 128;
        assert RemLen(n1) == [128 + n1 % 128] + RemLen(n2);
        if n2 >= 0x80 {
          var n3 := n2 / 128;
          assert RemLen(n2) == [128 + n2 % 128] + RemLen(n3);
        }
      }
    }
  }

  method RemainLen2Bytes(len: nat, buff: array<byte>, at: nat) returns (siz: nat)
    requires at + |RemLen(len)| <= buff.Length
    modifies buff
    ensures siz == |RemLen(len)|
    ensures buff[..] == old(buff[..at]) + RemLen(len) + old(buff[at + siz..])
  {
    hide RemLen, LowDigit, Higher, WithFlag;
    ghost var before := buff[..];
    siz := 0;
    var n := len;
    var more := true;
    ghost var done: seq<byte> := [];
    assert RemLen(len) == [] + RemLen(n);
    while more
      invariant siz == |done|
      invariant RemLen(len) == if more then done + RemLen(n) else done
      invariant buff[at..at + siz] == done
      invariant forall p :: 0 <= p < buff.Length && !(at <= p < at + siz) ==> buff[p] == before[p]
      decreases more, n
    {
      RemLenStep(len, done, n);
      var d := LowDigit(n);
      n := Higher(n);
      if n > 0 {
        d := WithFlag(d);
      }
      PutNext(buff, at, done, at + siz, d);
      siz := siz + 1;
      done := done + [d];
      more := n > 0;
    }
    Replaced(before, buff[..], at, done);
  }

  lemma Replaced(before: seq<byte>, after: seq<byte>, at: nat, part: seq<byte>)
    requires |before| == |after| && at + |part| <= |after| && after[at..at + |part|] == part
    requires forall p :: 0 <= p < |after| && !(at <= p < at + |part|) ==> after[p] == before[p]
    ensures after == before[..at] + part + before[at + |part|..]
  {
    assert after == after[..at] + after[at..at + |part|] + after[at + |part|..];
  }

  // One byte more behind those written from at on.
  method PutNext(buff: array<byte>, at: nat, ghost done: seq<byte>, p: nat, d: byte)
    requires p == at + |done| < buff.Length && buff[at..at + |done|] == done
    modifies buff
    ensures buff[at..at + |done| + 1] == done + [d]
    ensures forall q :: 0 <= q < buff.Length && q != p ==> buff[q] == old(buff[q])
  {
    buff[p] := d;
  }

  // One round of the loop: d = len % 128, len >>= 7, and the flag when bits are left.
  function LowDigit(n: nat): (d: byte)
    ensures d < 128
  {
    n % 128
  }

  function Higher(n: nat): nat {
    n / 128
  }

  function WithFlag(d: byte): byte
    requires d < 128
  {
    128 + d
  }

  lemma RemLenStep(len: nat, done: seq<byte>, n: nat)
    requires RemLen(len) == done + RemLen(n)
    ensures |done| < |RemLen(len)| && (Higher(n) > 0 ==> Higher(n) < n)
    ensures Higher(n) == 0 ==> RemLen(len) == done + [LowDigit(n)]
    ensures Higher(n) > 0 ==> RemLen(len) == done + [WithFlag(LowDigit(n))] + RemLen(Higher(n))
  {
    if n / 128 == 0 {
      assert RemLen(n) == [n];
    } else {
      assert RemLen(n) == [128 + n % 128] + RemLen(n / 128);
    }
  }

  // The bytes of the field can be read: at most three of them tell its size.
  predicate HasLength(buf: seq<byte>) {
    |buf| >= 2 && (buf[1] >= 128 ==> |buf| >= 3 && (buf[2] >= 128 ==> |buf| >= 4))
  }

  function NumRemLenBytes(buf: seq<byte>): (n: nat)
    requires HasLength(buf)
    ensures 1 <= n <= 4
  {
    if buf[1] < 128 then 1 else if buf[2] < 128 then 2 else if buf[3] < 128 then 3 else 4
  }

  ghost predicate Terminated(buf: seq<byte>, p: nat) {
    exists k :: p <= k < |buf| && buf[k] < 128
  }

  // What mqtt_parse_rem_len returns: its 16-bit accumulator keeps the value modulo 2^16.
  function RemLen16(buf: seq<byte>): (r: nat)
    ensures r < 0x1_0000
  {
    if buf == [] then 0 else RemValue(buf[1..]) % 0x1_0000
  }

  method ParseRemLen(buf: seq<byte>) returns (value: nat)
    requires Terminated(buf, 1)
    ensures value == RemLen16(buf)
  {
    hide Added, Scaled, Accumulated, RemValue;
    var multiplier: nat := 1;
    value := 0;
    var p := 1;
    ghost var end :| 1 <= end < |buf| && buf[end] < 128;
    ghost var whole := RemValue(buf[1..]);
    ghost var lost: nat := 0;
    AccumulatorStarts(whole);
    var more := true;
    while more
      invariant 1 <= p && (more ==> p <= end)
      invariant Accumulated(whole, value, multiplier, if more then RemValue(buf[p..]) else 0, lost)
      decreases more, |buf| - p
    {
      lost := AccumulatorStep(whole, value, multiplier, buf, p, lost);
      var digit := buf[p];
      value := Added(value, digit, multiplier);
      multiplier := Scaled(multiplier);
      p := p + 1;
      more := digit >= 128;
    }
    AccumulatorEnds(whole, value, multiplier, lost);
  }

  function Product(a: nat, b: nat): nat {
    a * b
  }

  // The two 16-bit updates of the loop.
  function Added(value: nat, digit: byte, multiplier: nat): nat {
    (value + Product(digit % 128, multiplier)) % 0x1_0000
  }

  function Scaled(multiplier: nat): nat {
    multiplier * 128 % 0x1_0000
  }

  // The 16-bit accumulator and multiplier, against the whole value: what was lost is a multiple of 2^16.
  ghost predicate Accumulated(whole: nat, value: nat, multiplier: nat, rest: nat, lost: nat) {
    value < 0x1_0000 && whole == value + Product(multiplier, rest) + 0x1_0000 * lost
  }

  lemma AccumulatorStarts(whole: nat)
    ensures Accumulated(whole, 0, 1, whole, 0)
  {
  }

  lemma AccumulatorStep(whole: nat, value: nat, m: nat, buf: seq<byte>, p: nat, lost: nat) returns (next: nat)
    requires p < |buf| && Accumulated(whole, value, m, RemValue(buf[p..]), lost)
    ensures Accumulated(whole, Added(value, buf[p], m), Scaled(m),
                        if buf[p] >= 128 then RemValue(buf[p + 1..]) else 0, next)
  {
    hide Accumulated, Added, Scaled;
    assert buf[p..][1..] == buf[p + 1..];
    next := DigitTaken(whole, value, m, buf[p], if buf[p] < 128 then 0 else RemValue(buf[p + 1..]), lost);
  }

  lemma DigitTaken(whole: nat, value: nat, m: nat, digit: byte, rest: nat, lost: nat) returns (next: nat)
    requires Accumulated(whole, value, m, digit % 128 + 128 * rest, lost)
    ensures Accumulated(whole, Added(value, digit, m), Scaled(m), rest, next)
  {
    hide Product;
    var d := digit % 128;
    var v := value + Product(d, m);
    Distribute(m, d, rest);
    Wrapped(m * 128, rest);
    next := lost + v / 0x1_0000 + Product(m * 128 / 0x1_0000, rest);
  }

  lemma AccumulatorEnds(whole: nat, value: nat, m: nat, lost: nat)
    requires Accumulated(whole, value, m, 0, lost)
    ensures value == whole % 0x1_0000
  {
    DivModUnique(whole, 0x1_0000, lost, value);
  }

  lemma Distribute(m: nat, digit: nat, rest: nat)
    ensures Product(m, digit + 128 * rest) == Product(digit, m) + Product(m * 128, rest)
  {
  }

  // Reducing the multiplier loses a multiple of 2^16.
  lemma Wrapped(m: nat, rest: nat)
    ensures Product(m, rest) == Product(m % 0x1_0000, rest) + 0x1_0000 * Product(m / 0x1_0000, rest)
  {
    Split(m / 0x1_0000, m % 0x1_0000, rest);
  }

  lemma Split(q: nat, r: nat, rest: nat)
    ensures (0x1_0000 * q + r) * rest == r * rest + 0x1_0000 * (q * rest)
  {
  }

  // mqtt_num_rem_len_bytes and mqtt_parse_rem_len read back what mqtt_remainlen2bytes wrote.
  lemma LengthRoundTrip(command: byte, n: nat, rest: seq<byte>)
    requires n < 0x1000_0000
    ensures var buf := [command] + RemLen(n) + rest;
      && HasLength(buf) && NumRemLenBytes(buf) == |RemLen(n)|
      && Terminated(buf, 1) && RemLen16(buf) == n % 0x1_0000
  {
    var b := RemLen(n);
    var buf := [command] + b + rest;
    RemLenSize(n);
    assert forall i :: 0 <= i < |b| ==> buf[i + 1] == b[i];
    forall i | 0 <= i < |b|
      ensures b[i] < 128 <==> i == |b| - 1
    {
      RemLenFlags(n, i);
    }
    assert buf[|b|] == b[|b| - 1] < 128;
    assert buf[1] == b[0];
    assert |b| > 1 ==> buf[2] == b[1];
    assert |b| > 2 ==> buf[3] == b[2];
    assert buf[1..] == b + rest;
    RemValueOfRemLen(n, rest);
  }

  // ----- Building a publish packet -----

  const PUBLISH: byte := 0x30
  const UNSUBACK: byte := 0xb0

  function QosSize(qos: nat): nat {
    if qos == 1 || qos == 2 then 2 else 0
  }

  function FirstByte(qos: nat, retain: bool): byte {
    PUBLISH + (if qos == 1 then 2 else if qos == 2 then 4 else 0) + (if retain then 1 else 0)
  }

  // The length of a C string as a uint16_t keeps it.
  function Length16(s: seq<byte>): (n: nat)
    ensures n <= |s| && n < 0x1_0000
    ensures |s| < 0x1_0000 ==> n == |s|
  {
    Low16(|s|)
  }

  function Word(n: nat): (w: seq<byte>)
    requires n < 0x1_0000
    ensures |w| == 2
  {
    [n / 256, n % 256]
  }

  // Topic length, topic, and the message id when the quality of service asks for one.
  function VarHeader(topic: seq<byte>, qos: nat, id: nat): seq<byte>
    requires id < 0x1_0000
  {
    Word(Length16(topic)) + topic[..Length16(topic)] + (if QosSize(qos) == 0 then [] else Word(id))
  }

  // What a uint16_t keeps of a number.
  function Low16(n: nat): (r: nat)
    ensures r < 0x1_0000
    ensures n < 0x1_0000 ==> r == n
  {
    n % 0x1_0000
  }

  // The packet, with its Remaining Length cut to 16 bits as in the code.
  function PublishPacket(topic: seq<byte>, data: seq<byte>, retain: bool, qos: nat, id: nat): seq<byte>
    requires id < 0x1_0000
  {
    var header := VarHeader(topic, qos, id);
    [FirstByte(qos, retain)] + RemLen(Low16(|header| + |data|)) + header + data
  }

  method Assemble(fixed: seq<byte>, header: seq<byte>, data: seq<byte>) returns (packet: array<byte>)
    ensures fresh(packet) && packet[..] == fixed + header + data
  {
    packet := new byte[|fixed| + |header| + |data|](_ => 0);
    Copy(packet, 0, fixed);
    assert packet[..|fixed|] == fixed;
    Copy(packet, |fixed|, header);
    ghost var front := packet[..|fixed| + |header|];
    assert front == fixed + header;
    Copy(packet, |fixed| + |header|, data);
  }

  // A callback's int result as an unsigned 32-bit number.
  function Unsigned32(r: int): nat {
    r % 0x1_0000_0000
  }

  // What a publish returns for a packet of that size: the comparison is unsigned.
  function Verdict(sendResult: int, size: nat): int {
    if Unsigned32(sendResult) < size then -1 else 1
  }

  // It reports success exactly when the callback took all bytes or returned a negative number.
  lemma VerdictExact(sendResult: int, size: nat)
    requires -0x8000_0000 <= sendResult < 0x8000_0000 && size < 0x8000_0000
    ensures Verdict(sendResult, size) == 1 <==> sendResult < 0 || sendResult >= size
  {
    if sendResult < 0 {
      assert Unsigned32(sendResult) == sendResult + 0x1_0000_0000;
    }
  }

  // So a callback that fails with -1 is believed, and one that returns 0 for success, as the
  // server's own queue does, is not.
  lemma VerdictWrong(size: nat)
    requires 0 < size < 0x8000_0000
    ensures Verdict(-1, size) == 1 && Verdict(0, size) == -1
  {
    VerdictExact(-1, size);
    VerdictExact(0, size);
  }

  // The caller's handle: its message counter, and the packets given to its send callback.
  class Broker {
    var nextId: nat
    var sent: seq<seq<byte>>

    predicate Valid()
      reads this
    {
      nextId < 0x1_0000
    }

    method FillVarHeader(topic: seq<byte>, qos: nat) returns (header: array<byte>, id: nat)
      requires Valid()
      modifies this`nextId
      ensures Valid() && id == old(nextId) && fresh(header)
      ensures header[..] == VarHeader(topic, qos, id)
      ensures nextId == if QosSize(qos) == 0 then id else (id + 1) % 0x1_0000
    {
      var n := Length16(topic);
      var qosSize := QosSize(qos);
      header := new byte[n + 2 + qosSize](_ => 0);
      header[0] := n / 256;
      header[1] := n % 256;
      Copy(header, 2, topic[..n]);
      ghost var front := header[..n + 2];
      assert front == Word(n) + topic[..n];
      id := nextId;
      if qosSize != 0 {
        PutWord(header, n + 2, nextId);
        nextId := (nextId + 1) % 0x1_0000;
      }
      assert header[..] == header[..n + 2] + header[n + 2..];
    }

    method PutWord(header: array<byte>, at: nat, n: nat)
      requires at + 2 == header.Length && n < 0x1_0000
      modifies header
      ensures header[..at] == old(header[..at]) && header[at..] == Word(n)
    {
      header[at] := n / 256;
      header[at + 1] := n % 256;
    }

    // sendResult is what the send callback returns.
    method Send(packet: array<byte>, sendResult: int) returns (r: int)
      modifies this`sent
      ensures sent == old(sent) + [packet[..]]
      ensures r == Verdict(sendResult, packet.Length)
    {
      sent := sent + [packet[..]];
      r := if Unsigned32(sendResult) < packet.Length then -1 else 1;
    }

    method PublishData(topic: seq<byte>, data: seq<byte>, retain: bool, qos: nat, sendResult: int)
      returns (r: int, id: nat)
      requires Valid()
      modifies this
      ensures Valid() && id == old(nextId)
      ensures sent == old(sent) + [PublishPacket(topic, data, retain, qos, id)]
      ensures nextId == if QosSize(qos) == 0 then id else (id + 1) % 0x1_0000
      ensures r == Verdict(sendResult, |PublishPacket(topic, data, retain, qos, id)|)
    {
      hide RemLen, VarHeader;
      var header;
      header, id := FillVarHeader(topic, qos);
      var remaining := Low16(header.Length + |data|);
      var fixed := new byte[5];
      fixed[0] := FirstByte(qos, retain);
      RemLenSize(remaining);
      var size := RemainLen2Bytes(remaining, fixed, 1);
      size := size + 1;
      assert fixed[..size] == [FirstByte(qos, retain)] + RemLen(remaining);
      var packet := Assemble(fixed[..size], header[..], data);
      r := Send(packet, sendResult);
    }

    method PublishWithQos(topic: seq<byte>, msg: seq<byte>, retain: bool, qos: nat, sendResult: int)
      returns (r: int, id: nat)
      requires Valid()
      modifies this
      ensures Valid() && id == old(nextId)
      ensures sent == old(sent) + [ShortPacket(topic, msg, retain, qos, id)]
      ensures nextId == if QosSize(qos) == 0 then id else (id + 1) % 0x1_0000
      ensures r == Verdict(sendResult, |ShortPacket(topic, msg, retain, qos, id)|)
    {
      hide VarHeader, Length16;
      var n := Length16(msg);
      var header;
      header, id := FillVarHeader(topic, qos);
      var remaining := Low16(header.Length + n);
      var size := if remaining > 127 then 3 else 2;
      var fixed := new byte[size];
      fixed[0] := FirstByte(qos, retain);
      if remaining <= 127 {
        fixed[1] := remaining;
      } else {
        fixed[1] := remaining % 128;
        fixed[1] := 128 + fixed[1];
        fixed[2] := remaining / 128 % 256;
      }
      assert fixed[..] == [FirstByte(qos, retain)] + TwoByteLength(remaining);
      var packet := Assemble(fixed[..], header[..], msg[..n]);
      r := Send(packet, sendResult);
    }
  }

  // The builder for strings has room for two bytes of Remaining Length.
  function TwoByteLength(n: nat): seq<byte> {
    if n <= 127 then [n] else [128 + n % 128, n / 128 % 256]
  }

  function ShortPacket(topic: seq<byte>, msg: seq<byte>, retain: bool, qos: nat, id: nat): seq<byte>
    requires id < 0x1_0000
  {
    var header := VarHeader(topic, qos, id);
    var n := Length16(msg);
    [FirstByte(qos, retain)] + TwoByteLength(Low16(|header| + n)) + header + msg[..n]
  }

  // The two builders agree exactly while two bytes are enough.
  lemma BuildersAgree(topic: seq<byte>, msg: seq<byte>, retain: bool, qos: nat, id: nat)
    requires id < 0x1_0000 && |msg| < 0x1_0000
    ensures ShortPacket(topic, msg, retain, qos, id) == PublishPacket(topic, msg, retain, qos, id) <==>
            Low16(|VarHeader(topic, qos, id)| + |msg|) <= 16383
  {
    var header := VarHeader(topic, qos, id);
    var n := Low16(|header| + |msg|);
    RemLenSize(n);
    if 0x80 <= n <= 16383 {
      assert RemLen(n) == [128 + n % 128] + RemLen(n / 128);
      assert n / 128 < 128;
    }
    if n > 16383 {
      assert |ShortPacket(topic, msg, retain, qos, id)| < |PublishPacket(topic, msg, retain, qos, id)|;
    }
  }

  // ----- Parsing a publish packet -----

  function TypeOf(first: byte): byte {
    first - first % 16
  }

  function QosOf(first: byte): nat {
    first / 2 % 4
  }

  // So can the two bytes behind it: a topic length, or a message id.
  predicate HasWord(buf: seq<byte>) {
    HasLength(buf) && NumRemLenBytes(buf) + 2 < |buf|
  }

  // Where a field starts in the packet, and the length the parser returns for it.
  datatype Field = Field(start: nat, len: nat)

  function PubTopicPtr(buf: seq<byte>): Option<Field>
    requires HasWord(buf)
  {
    if TypeOf(buf[0]) != PUBLISH then None
    else
      var rlb := NumRemLenBytes(buf);
      Some(Field(1 + rlb + 2, Word16(buf[1 + rlb], buf[1 + rlb + 1])))
  }

  // The 8-bit offset: the high byte of the topic length is shifted out of it.
  function OffsetPastTopic(buf: seq<byte>): nat
    requires HasWord(buf)
  {
    var rlb := NumRemLenBytes(buf);
    (buf[1 + rlb + 1] + (1 + rlb + 2)) % 256
  }

  function PubMsgPtr(buf: seq<byte>): Option<Field>
    requires HasWord(buf)
  {
    if TypeOf(buf[0]) != PUBLISH then None
    else
      var rlb := NumRemLenBytes(buf);
      var offset := (OffsetPastTopic(buf) + (if QosOf(buf[0]) != 0 then 2 else 0)) % 256;
      Some(Field(offset, (RemLen16(buf) - (offset - (rlb + 1))) % 0x1_0000))
  }

  // Other packets have neither topic nor payload.
  lemma NotPublish(buf: seq<byte>)
    requires HasWord(buf) && (buf[0] < 0x30 || 0x40 <= buf[0])
    ensures PubTopicPtr(buf) == None && PubMsgPtr(buf) == None
  {
    assert TypeOf(buf[0]) != 0x30;
  }

  // Whether packets of this kind carry an id; publishes do when they ask for an answer.
  predicate CarriesId(first: byte) {
    PUBLISH <= TypeOf(first) <= UNSUBACK && (TypeOf(first) == PUBLISH ==> QosOf(first) != 0)
  }

  // The parser stays inside the packet.
  predicate IdReadable(buf: seq<byte>) {
    buf != [] && (CarriesId(buf[0]) ==>
      HasWord(buf) && (TypeOf(buf[0]) == PUBLISH ==> OffsetPastTopic(buf) + 1 < |buf|))
  }

  // The id is assembled in 16 bits and returned in 8.
  function ParseMsgId(buf: seq<byte>): nat
    requires IdReadable(buf)
  {
    if !CarriesId(buf[0]) then 0
    else
      var at := if TypeOf(buf[0]) == PUBLISH then OffsetPastTopic(buf) else 1 + NumRemLenBytes(buf);
      Word16(buf[at], buf[at + 1]) % 256
  }

  // Where the payload of the packet starts.
  function PayloadStart(topic: seq<byte>, data: seq<byte>, qos: nat): nat {
    var variable := 2 + |topic| + QosSize(qos);
    1 + |RemLen(variable + |data|)| + variable
  }

  // The fields of buf, whose Remaining Length field takes rlb bytes.
  predicate Laid(buf: seq<byte>, rlb: nat, first: byte, topic: seq<byte>, idField: seq<byte>, data: seq<byte>) {
    && |topic| < 0x1_0000
    && |buf| == 3 + rlb + |topic| + |idField| + |data|
    && buf[0] == first
    && buf[1 + rlb] == |topic| / 256 && buf[2 + rlb] == |topic| % 256
    && buf[3 + rlb..3 + rlb + |topic|] == topic
    && buf[3 + rlb + |topic|..3 + rlb + |topic| + |idField|] == idField
    && buf[3 + rlb + |topic| + |idField|..] == data
  }

  lemma LaidOut(first: byte, b: seq<byte>, topic: seq<byte>, idField: seq<byte>, data: seq<byte>)
    requires |topic| < 0x1_0000
    ensures Laid([first] + b + (Word(|topic|) + topic + idField + data), |b|, first, topic, idField, data)
  {
    var buf := [first] + b + (Word(|topic|) + topic + idField + data);
    assert buf[1 + |b|..] == Word(|topic|) + topic + idField + data;
    assert buf[1 + |b|..][0] == |topic| / 256 && buf[1 + |b|..][1] == |topic| % 256;
  }

  function IdField(qos: nat, id: nat): (s: seq<byte>)
    requires id < 0x1_0000
    ensures |s| == QosSize(qos)
  {
    if QosSize(qos) == 0 then [] else Word(id)
  }

  // A packet whose lengths fit their fields.
  ghost predicate Fits(topic: seq<byte>, data: seq<byte>, qos: nat) {
    2 + |topic| + QosSize(qos) + |data| < 0x1_0000
  }

  lemma PacketLayout(topic: seq<byte>, data: seq<byte>, retain: bool, qos: nat, id: nat)
    requires id < 0x1_0000 && Fits(topic, data, qos)
    ensures var buf := PublishPacket(topic, data, retain, qos, id);
      && HasWord(buf) && Terminated(buf, 1)
      && NumRemLenBytes(buf) == |RemLen(2 + |topic| + QosSize(qos) + |data|)|
      && RemLen16(buf) == 2 + |topic| + QosSize(qos) + |data|
      && Laid(buf, NumRemLenBytes(buf), FirstByte(qos, retain), topic, IdField(qos, id), data)
  {
    hide RemLen, Laid, HasWord, NumRemLenBytes, RemLen16, PublishPacket, FirstByte, IdField, Word, Terminated;
    var n := 2 + |topic| + QosSize(qos) + |data|;
    var first, idField := FirstByte(qos, retain), IdField(qos, id);
    var rest := Word(|topic|) + topic + idField + data;
    PacketWritten(topic, data, retain, qos, id);
    LengthRoundTrip(first, n, rest);
    LaidOut(first, RemLen(n), topic, idField, data);
    TopicLengthThere([first] + RemLen(n) + rest, |RemLen(n)|, first, topic, idField, data);
  }

  // The packet in one piece.
  lemma PacketWritten(topic: seq<byte>, data: seq<byte>, retain: bool, qos: nat, id: nat)
    requires id < 0x1_0000 && Fits(topic, data, qos)
    ensures PublishPacket(topic, data, retain, qos, id)
         == [FirstByte(qos, retain)] + RemLen(2 + |topic| + QosSize(qos) + |data|)
            + (Word(|topic|) + topic + IdField(qos, id) + data)
  {
    hide RemLen, Word, FirstByte, VarHeader, IdField, Low16;
    HeaderWritten(topic, qos, id);
    Concatenated([FirstByte(qos, retain)] + RemLen(2 + |topic| + QosSize(qos) + |data|), VarHeader(topic, qos, id), data);
  }

  lemma Concatenated(a: seq<byte>, b: seq<byte>, c: seq<byte>)
    ensures a + b + c == a + (b + c)
  {
  }

  lemma HeaderWritten(topic: seq<byte>, qos: nat, id: nat)
    requires |topic| < 0x1_0000 && id < 0x1_0000
    ensures VarHeader(topic, qos, id) == Word(|topic|) + topic + IdField(qos, id)
    ensures |VarHeader(topic, qos, id)| == 2 + |topic| + QosSize(qos)
  {
    assert topic[..Length16(topic)] == topic;
  }

  lemma TopicLengthThere(buf: seq<byte>, rlb: nat, first: byte, topic: seq<byte>, idField: seq<byte>, data: seq<byte>)
    requires HasLength(buf) && NumRemLenBytes(buf) == rlb && Laid(buf, rlb, first, topic, idField, data)
    ensures HasWord(buf)
  {
    hide NumRemLenBytes;
  }

  lemma FirstByteParsed(qos: nat, retain: bool)
    ensures TypeOf(FirstByte(qos, retain)) == PUBLISH
    ensures QosOf(FirstByte(qos, retain)) == if QosSize(qos) == 0 then 0 else qos
    ensures FirstByte(qos, retain) % 2 == 1 <==> retain
  {
    var first := FirstByte(qos, retain);
    if qos == 1 {
      assert first == 50 || first == 51;
    } else if qos == 2 {
      assert first == 52 || first == 53;
    } else {
      assert first == 48 || first == 49;
    }
    FirstBytes();
  }

  lemma FirstBytes()
    ensures forall b: byte :: 48 <= b < 64 ==> TypeOf(b) == PUBLISH
    ensures QosOf(48) == 0 && QosOf(49) == 0 && QosOf(50) == 1 && QosOf(51) == 1 && QosOf(52) == 2 && QosOf(53) == 2
  {
  }

  predicate FieldIs(buf: seq<byte>, f: Field, content: seq<byte>) {
    f.start + f.len <= |buf| && buf[f.start..f.start + f.len] == content
  }

  lemma OffsetFound(buf: seq<byte>, first: byte, topic: seq<byte>, idField: seq<byte>, data: seq<byte>)
    requires HasWord(buf) && Laid(buf, NumRemLenBytes(buf), first, topic, idField, data)
    ensures OffsetPastTopic(buf) == (3 + NumRemLenBytes(buf) + |topic|) % 256
    ensures Word16(buf[1 + NumRemLenBytes(buf)], buf[2 + NumRemLenBytes(buf)]) == |topic|
  {
    hide NumRemLenBytes;
    SumOfLowByte(|topic|, 3 + NumRemLenBytes(buf));
  }

  lemma SumOfLowByte(n: nat, k: nat)
    ensures (n % 256 + k) % 256 == (n + k) % 256
  {
  }

  lemma TopicFound(buf: seq<byte>, first: byte, topic: seq<byte>, idField: seq<byte>, data: seq<byte>)
    requires HasWord(buf) && Laid(buf, NumRemLenBytes(buf), first, topic, idField, data)
    requires TypeOf(first) == PUBLISH
    ensures PubTopicPtr(buf).Some? && FieldIs(buf, PubTopicPtr(buf).value, topic)
  {
    OffsetFound(buf, first, topic, idField, data);
  }

  lemma MsgFound(buf: seq<byte>, first: byte, topic: seq<byte>, idField: seq<byte>, data: seq<byte>)
    requires HasWord(buf) && Laid(buf, NumRemLenBytes(buf), first, topic, idField, data)
    requires TypeOf(first) == PUBLISH && |idField| == if QosOf(first) == 0 then 0 else 2
    requires RemLen16(buf) == 2 + |topic| + |idField| + |data|
    ensures var start := 3 + NumRemLenBytes(buf) + |topic| + |idField|;
      && PubMsgPtr(buf).Some?
      && (PubMsgPtr(buf).value.start == start <==> start <= 255)
      && (start <= 255 ==> FieldIs(buf, PubMsgPtr(buf).value, data))
  {
    hide NumRemLenBytes, TypeOf, OffsetPastTopic, PubMsgPtr, QosOf, RemLen16;
    var rlb := NumRemLenBytes(buf);
    var start := 3 + rlb + |topic| + |idField|;
    MsgComputed(buf, first, topic, idField, data);
    if start <= 255 {
      assert start % 256 == start;
      assert RemLen16(buf) - (start - (rlb + 1)) == |data|;
      assert start + |data| == |buf|;
      assert buf[start..start + |data|] == buf[start..];
    }
  }

  // What the parser computes, modulo 256 and 2^16.
  lemma MsgComputed(buf: seq<byte>, first: byte, topic: seq<byte>, idField: seq<byte>, data: seq<byte>)
    requires HasWord(buf) && Laid(buf, NumRemLenBytes(buf), first, topic, idField, data)
    requires TypeOf(first) == PUBLISH && |idField| == if QosOf(first) == 0 then 0 else 2
    ensures var rlb := NumRemLenBytes(buf);
      var start := 3 + rlb + |topic| + |idField|;
      PubMsgPtr(buf) == Some(Field(start % 256, (RemLen16(buf) - (start % 256 - (rlb + 1))) % 0x1_0000))
  {
    hide NumRemLenBytes, TypeOf, OffsetPastTopic, QosOf, RemLen16, Laid;
    OffsetFound(buf, first, topic, idField, data);
    SumOfLowByte(3 + NumRemLenBytes(buf) + |topic|, |idField|);
    FirstLaid(buf, NumRemLenBytes(buf), first, topic, idField, data);
  }

  lemma FirstLaid(buf: seq<byte>, rlb: nat, first: byte, topic: seq<byte>, idField: seq<byte>, data: seq<byte>)
    requires Laid(buf, rlb, first, topic, idField, data)
    ensures buf != [] && buf[0] == first
  {
  }

  // The topic is always found. The payload is found exactly when its start fits in eight bits, and
  // then its length is right as well.
  lemma PublishParsed(topic: seq<byte>, data: seq<byte>, retain: bool, qos: nat, id: nat)
    requires id < 0x1_0000 && Fits(topic, data, qos)
    ensures var buf := PublishPacket(topic, data, retain, qos, id);
            var start := PayloadStart(topic, data, qos);
      && HasWord(buf) && PubTopicPtr(buf).Some? && PubMsgPtr(buf).Some?
      && var t, m := PubTopicPtr(buf).value, PubMsgPtr(buf).value;
      && FieldIs(buf, t, topic)
      && (m.start == start <==> start <= 255)
      && (start <= 255 ==> FieldIs(buf, m, data))
  {
    PacketLayout(topic, data, retain, qos, id);
    FirstByteParsed(qos, retain);
    var buf := PublishPacket(topic, data, retain, qos, id);
    var first := FirstByte(qos, retain);
    TopicFound(buf, first, topic, IdField(qos, id), data);
    MsgFound(buf, first, topic, IdField(qos, id), data);
  }

  // Where the message id of the packet starts.
  function IdStart(topic: seq<byte>, data: seq<byte>, qos: nat): nat {
    1 + |RemLen(2 + |topic| + QosSize(qos) + |data|)| + 2 + |topic|
  }

  // What comes before the id, whatever it is.
  function BeforeId(topic: seq<byte>, data: seq<byte>, retain: bool, qos: nat): seq<byte>
    requires Fits(topic, data, qos)
  {
    [FirstByte(qos, retain)] + RemLen(2 + |topic| + QosSize(qos) + |data|) + (Word(|topic|) + topic)
  }

  lemma PacketSplit(topic: seq<byte>, data: seq<byte>, retain: bool, qos: nat, id: nat)
    requires id < 0x1_0000 && Fits(topic, data, qos)
    ensures |BeforeId(topic, data, retain, qos)| == IdStart(topic, data, qos)
    ensures PublishPacket(topic, data, retain, qos, id) == BeforeId(topic, data, retain, qos) + (IdField(qos, id) + data)
  {
    hide RemLen, Word, FirstByte, IdField;
    PacketWritten(topic, data, retain, qos, id);
    var front, field := [FirstByte(qos, retain)] + RemLen(2 + |topic| + QosSize(qos) + |data|), IdField(qos, id);
    var name := Word(|topic|) + topic;
    Concatenated(name, field, data);
    Concatenated(front, name, field + data);
  }

  // Which two bytes the parser takes for the id of a publish.
  lemma IdRead(topic: seq<byte>, data: seq<byte>, retain: bool, qos: nat, id: nat)
    requires id < 0x1_0000 && Fits(topic, data, qos) && QosSize(qos) != 0
    ensures var buf, at := PublishPacket(topic, data, retain, qos, id), IdStart(topic, data, qos) % 256;
      at + 1 < |buf| && IdReadable(buf) && ParseMsgId(buf) == buf[at + 1]
  {
    hide RemLen, NumRemLenBytes, RemLen16, PublishPacket, FirstByte, OffsetPastTopic, IdField, BeforeId, TypeOf, QosOf;
    hide IdReadable, ParseMsgId, Laid, HasWord, Terminated;
    PacketLayout(topic, data, retain, qos, id);
    FirstByteParsed(qos, retain);
    PacketSplit(topic, data, retain, qos, id);
    var buf := PublishPacket(topic, data, retain, qos, id);
    FirstLaid(buf, NumRemLenBytes(buf), FirstByte(qos, retain), topic, IdField(qos, id), data);
    OffsetFound(buf, FirstByte(qos, retain), topic, IdField(qos, id), data);
    IdReadAt(buf, OffsetPastTopic(buf));
  }

  lemma IdReadAt(buf: seq<byte>, at: nat)
    requires HasWord(buf) && OffsetPastTopic(buf) == at && at + 1 < |buf|
    requires TypeOf(buf[0]) == PUBLISH && QosOf(buf[0]) != 0
    ensures IdReadable(buf) && ParseMsgId(buf) == buf[at + 1]
  {
    hide OffsetPastTopic, NumRemLenBytes, QosOf, TypeOf;
    LowByte(buf[at], buf[at + 1]);
  }

  lemma LowByte(high: byte, low: byte)
    ensures Word16(high, low) % 256 == low
  {
  }

  // Every message id comes back modulo 256 exactly when its place fits in eight bits.
  lemma MsgIdParsed(topic: seq<byte>, data: seq<byte>, retain: bool, qos: nat)
    requires Fits(topic, data, qos) && QosSize(qos) != 0
    ensures forall id: nat :: id < 0x1_0000 ==> IdReadable(PublishPacket(topic, data, retain, qos, id))
    ensures (forall id: nat :: id < 0x1_0000 ==> ParseMsgId(PublishPacket(topic, data, retain, qos, id)) == id % 256)
            <==> IdStart(topic, data, qos) <= 255
  {
    hide IdReadable, ParseMsgId, PublishPacket, IdStart;
    forall id: nat | id < 0x1_0000
      ensures IdReadable(PublishPacket(topic, data, retain, qos, id))
    {
      IdRead(topic, data, retain, qos, id);
    }
    if IdStart(topic, data, qos) <= 255 {
      forall id: nat | id < 0x1_0000
        ensures ParseMsgId(PublishPacket(topic, data, retain, qos, id)) == id % 256
      {
        IdHit(topic, data, retain, qos, id);
      }
    } else {
      IdMissed(topic, data, retain, qos, 0);
      IdMissed(topic, data, retain, qos, 1);
    }
  }

  lemma IdHit(topic: seq<byte>, data: seq<byte>, retain: bool, qos: nat, id: nat)
    requires id < 0x1_0000 && Fits(topic, data, qos) && QosSize(qos) != 0 && IdStart(topic, data, qos) <= 255
    ensures IdReadable(PublishPacket(topic, data, retain, qos, id))
    ensures ParseMsgId(PublishPacket(topic, data, retain, qos, id)) == id % 256
  {
    hide IdReadable, ParseMsgId, PublishPacket, BeforeId, IdStart;
    IdRead(topic, data, retain, qos, id);
    PacketSplit(topic, data, retain, qos, id);
    assert IdField(qos, id) == Word(id);
  }

  // A byte of the topic is read instead, the same for every id.
  lemma IdMissed(topic: seq<byte>, data: seq<byte>, retain: bool, qos: nat, id: nat)
    requires id < 0x1_0000 && Fits(topic, data, qos) && QosSize(qos) != 0 && IdStart(topic, data, qos) > 255
    ensures var at := IdStart(topic, data, qos) % 256;
      && at + 1 < |BeforeId(topic, data, retain, qos)|
      && IdReadable(PublishPacket(topic, data, retain, qos, id))
      && ParseMsgId(PublishPacket(topic, data, retain, qos, id)) == BeforeId(topic, data, retain, qos)[at + 1]
  {
    hide IdReadable, ParseMsgId, PublishPacket, BeforeId, IdStart;
    IdRead(topic, data, retain, qos, id);
    PacketSplit(topic, data, retain, qos, id);
  }

  // Packets from PUBACK to UNSUBACK start with their id: it comes back modulo 256.
  lemma OtherIdParsed(first: byte, n: nat, id: nat, rest: seq<byte>)
    requires 0x40 <= first < 0xc0 && n < 0x1000_0000 && id < 0x1_0000
    ensures var buf := [first] + RemLen(n) + Word(id) + rest;
      IdReadable(buf) && ParseMsgId(buf) == id % 256
  {
    hide RemLen, RemLen16, NumRemLenBytes, Word, Terminated;
    var b := RemLen(n);
    var buf := [first] + b + Word(id) + rest;
    Concatenated([first] + b, Word(id), rest);
    LengthRoundTrip(first, n, Word(id) + rest);
    assert buf[0] == first && buf[1 + |b|] == Word(id)[0] && buf[2 + |b|] == Word(id)[1];
    WordBytes(id);
    LowByte(id / 256, id % 256);
  }

  lemma WordBytes(n: nat)
    requires n < 0x1_0000
    ensures Word(n) == [n / 256, n % 256]
  {
  }

  // Packets of the remaining types have none.
  lemma NoIdOutside(buf: seq<byte>)
    requires buf != [] && (buf[0] < 0x30 || 0xc0 <= buf[0])
    ensures IdReadable(buf) && ParseMsgId(buf) == 0
  {
    assert TypeOf(buf[0]) < 0x30 || 0xc0 <= TypeOf(buf[0]);
  }

  // A publish that asks for no answer has no id.
  lemma NoMsgId(topic: seq<byte>, data: seq<byte>, retain: bool, qos: nat, id: nat)
    requires id < 0x1_0000 && QosSize(qos) == 0
    ensures var buf := PublishPacket(topic, data, retain, qos, id);
      IdReadable(buf) && ParseMsgId(buf) == 0
  {
    hide RemLen;
    FirstByteParsed(qos, retain);
    assert PublishPacket(topic, data, retain, qos, id)[0] == FirstByte(qos, retain);
  }
}
