/**
 The MPEG program-stream demultiplexer: RTP packets go in, and the payload bytes of the elementary
 streams come out. A payload may be cut by packet ends; two globals carry the unfinished part over.
 */
module PsDemux {
  import opened Octets
  import opened Options

  // ----- The parser -----

  // The receive buffer; whatever lies behind the packet is still readable, and beyond it reads as zero.
  function At(mem: seq<byte>, i: nat): byte {
    if i < |mem| then mem[i] else 0
  }

  // The two globals and the bytes written so far.
  datatype Demux = Demux(rawLength: int, videoFlag: bool, output: seq<byte>)

  // Undefined marks a write of negative size, which only malformed lengths can lead to.
  datatype Outcome = AtEnd | Stopped | Undefined

  predicate StartCode(mem: seq<byte>, p: nat, id: byte) {
    At(mem, p) == 0 && At(mem, p + 1) == 0 && At(mem, p + 2) == 1 && At(mem, p + 3) == id
  }

  predicate Recognised(mem: seq<byte>, p: nat) {
    StartCode(mem, p, 0xba) || StartCode(mem, p, 0xbb) || StartCode(mem, p, 0xbc) || PesStart(mem, p)
  }

  predicate PesStart(mem: seq<byte>, p: nat) {
    StartCode(mem, p, 0xe0) || StartCode(mem, p, 0xc0)
  }

  // A 16-bit length field, in network order.
  function Length16(mem: seq<byte>, p: nat): nat {
    Word16(At(mem, p), At(mem, p + 1))
  }

  function Slice(mem: seq<byte>, p: nat, n: nat): (s: seq<byte>)
    ensures |s| == n
  {
    seq<byte>(n, i requires 0 <= i < n => At(mem, p + i))
  }

  // One pass over mem[p..end], as ps_parse_loop makes it.
  function Parse(mem: seq<byte>, p: nat, end: nat, d: Demux): (Demux, Outcome)
    decreases end - p
  {
    if p >= end then (d, AtEnd)
    else if StartCode(mem, p, 0xba) then Parse(mem, p + 14 + At(mem, p + 13) % 8, end, d)
    else if StartCode(mem, p, 0xbb) || StartCode(mem, p, 0xbc) then Parse(mem, p + 4 + 2 + Length16(mem, p + 4), end, d)
    else if PesStart(mem, p) then
      var q := p + 6 + 3 + At(mem, p + 8);
      var raw := Length16(mem, p + 4) - 3 - At(mem, p + 8);
      var psize := end - q;
      if raw < 0 || psize < 0 then (d, Undefined)
      else if psize >= raw then Parse(mem, q + raw, end, Demux(0, true, d.output + Slice(mem, q, raw)))
      else Parse(mem, q + psize, end, Demux(raw - psize, true, d.output + Slice(mem, q, psize)))
    else if d.videoFlag && d.rawLength > 0 then
      var len := end - p;
      if len > d.rawLength then
        Parse(mem, p + d.rawLength, end, Demux(0, false, d.output + Slice(mem, p, d.rawLength)))
      else (d.(rawLength := d.rawLength - len, output := d.output + Slice(mem, p, len)), Stopped)
    else (d, Stopped)
  }

  class Demultiplexer {
    var rawLength: int
    var videoFlag: bool
    var output: seq<byte>

    ghost function State(): Demux
      reads this
    {
      Demux(rawLength, videoFlag, output)
    }

    constructor ()
      ensures State() == Demux(0, false, [])
    {
      rawLength, videoFlag, output := 0, false, [];
    }

    // h264_cache_write, less its diagnostics.
    method Write(mem: seq<byte>, p: nat, n: nat)
      modifies this`output
      ensures output == old(output) + Slice(mem, p, n)
    {
      output := output + Slice(mem, p, n);
    }

    method ParseLoop(mem: seq<byte>, p: nat, end: nat) returns (o: Outcome)
      modifies this
      ensures (State(), o) == Parse(mem, p, end, old(State()))
      decreases end - p
    {
      if p >= end {
        return AtEnd;
      }
      if StartCode(mem, p, 0xba) {
        o := ParseLoop(mem, p + 14 + At(mem, p + 13) % 8, end);
        return;
      }
      if StartCode(mem, p, 0xbb) {
        o := ParseLoop(mem, p + 4 + 2 + Length16(mem, p + 4), end);
        return;
      }
      if StartCode(mem, p, 0xbc) {
        o := ParseLoop(mem, p + 4 + 2 + Length16(mem, p + 4), end);
        return;
      }
      if PesStart(mem, p) {
        var q := p + 6 + 3 + At(mem, p + 8);
        var raw := Length16(mem, p + 4) - 3 - At(mem, p + 8);
        var psize := end - q;
        if raw < 0 || psize < 0 {
          return Undefined;
        }
        videoFlag := true;
        if psize >= raw {
          Write(mem, q, raw);
          q := q + raw;
          rawLength := 0;
        } else {
          Write(mem, q, psize);
          rawLength := raw - psize;
          q := q + psize;
        }
        o := ParseLoop(mem, q, end);
        return;
      }
      if videoFlag && rawLength > 0 {
        var len := end - p;
        if len > rawLength {
          Write(mem, p, rawLength);
          var q := p + rawLength;
          rawLength := 0;
          videoFlag := false;
          o := ParseLoop(mem, q, end);
          return;
        }
        Write(mem, p, len);
        rawLength := rawLength - len;
        return Stopped;
      }
      return Stopped;
    }

    // Skip the fixed header and, word by word, the extension; then parse payload type 96.
    method RtpParse(mem: seq<byte>, size: nat) returns (o: Outcome)
      modifies this
      ensures (State(), o) == ParseRtp(mem, size, old(State()))
    {
      var next := 12;
      if At(mem, 0) / 16 % 2 == 1 {
        next := next + 2;
        var length := Length16(mem, next);
        next := next + 2;
        for ll := 0 to length
          invariant next == 16 + 4 * ll
        {
          next := next + 4;
        }
      }
      if At(mem, 1) % 128 == 96 {
        o := ParseLoop(mem, next, size);
        return;
      }
      return Stopped;
    }
  }

  // Where the payload of an RTP packet starts, by the header's extension bit and the extension's length.
  function RtpStart(mem: seq<byte>): nat {
    if At(mem, 0) / 16 % 2 == 1 then 16 + 4 * Length16(mem, 14) else 12
  }

  function ParseRtp(mem: seq<byte>, size: nat, d: Demux): (Demux, Outcome) {
    if At(mem, 1) % 128 == 96 then Parse(mem, RtpStart(mem), size, d) else (d, Stopped)
  }

  // ----- Well-formed program streams -----

  datatype Unit =
    | Pack(fields: seq<byte>, last: byte, stuffing: seq<byte>)
    | System(body: seq<byte>)
    | StreamMap(body: seq<byte>)
    | Pes(id: byte, flags: seq<byte>, header: seq<byte>, payload: seq<byte>)

  predicate WellFormed(u: Unit) {
    match u
    case Pack(fields, last, stuffing) => |fields| == 9 && |stuffing| == last % 8
    case System(body) => |body| < 0x1_0000
    case StreamMap(body) => |body| < 0x1_0000
    case Pes(id, flags, header, payload) =>
      (id == 0xe0 || id == 0xc0) && |flags| == 2 && |header| < 256 && 3 + |header| + |payload| < 0x1_0000
  }

  function Bytes16(n: nat): (b: seq<byte>)
    requires n < 0x1_0000
    ensures |b| == 2 && Word16(b[0], b[1]) == n
  {
    [n / 256, n % 256]
  }

  // A unit up to its payload; only PES units have one.
  function Header(u: Unit): seq<byte>
    requires WellFormed(u)
  {
    match u
    case Pack(fields, last, stuffing) => [0, 0, 1, 0xba] + fields + [last] + stuffing
    case System(body) => [0, 0, 1, 0xbb] + Bytes16(|body|) + body
    case StreamMap(body) => [0, 0, 1, 0xbc] + Bytes16(|body|) + body
    case Pes(id, flags, header, payload) =>
      [0, 0, 1, id] + Bytes16(3 + |header| + |payload|) + flags + [|header|] + header
  }

  function Payload(u: Unit): seq<byte> {
    if u.Pes? then u.payload else []
  }

  ghost predicate AllWellFormed(units: seq<Unit>) {
    forall i :: 0 <= i < |units| ==> WellFormed(units[i])
  }

  function Serialize(units: seq<Unit>): seq<byte>
    requires AllWellFormed(units)
  {
    if units == [] then [] else Header(units[0]) + Payload(units[0]) + Serialize(units[1..])
  }

  function Payloads(units: seq<Unit>): seq<byte> {
    if units == [] then [] else Payload(units[0]) + Payloads(units[1..])
  }

  // ----- Streams cut into packets anywhere but inside a header -----

  // What is still to come: the rest of an unfinished payload, then whole units.
  datatype Rest = Rest(fragment: seq<byte>, units: seq<Unit>)

  function Owed(r: Rest): seq<byte> {
    r.fragment + Payloads(r.units)
  }

  // A packet that ends inside the pending fragment, ...
  ghost predicate CutInFragment(r: Rest, packet: seq<byte>, r': Rest, k: nat) {
    k <= |r.fragment| && packet == r.fragment[..k] && r' == Rest(r.fragment[k..], r.units)
  }

  // ... or takes it, j whole units, and of the next unit its header and k bytes of its payload.
  ghost predicate CutInUnit(r: Rest, packet: seq<byte>, r': Rest, j: nat, k: nat)
    requires AllWellFormed(r.units)
  {
    && j < |r.units| && k <= |Payload(r.units[j])|
    && packet == r.fragment + (Serialize(r.units[..j]) + (Header(r.units[j]) + Payload(r.units[j])[..k]))
    && r' == Rest(Payload(r.units[j])[k..], r.units[j + 1..])
  }

  ghost predicate Cut(r: Rest, packet: seq<byte>, r': Rest)
    requires AllWellFormed(r.units)
  {
    (exists k: nat :: CutInFragment(r, packet, r', k)) || (exists j: nat, k: nat :: CutInUnit(r, packet, r', j, k))
  }

  // The globals agree with what is still to come.
  predicate Tracks(d: Demux, r: Rest) {
    d.rawLength == |r.fragment| && (r.fragment != [] ==> d.videoFlag)
  }

  lemma SliceOf(mem: seq<byte>, p: nat, s: seq<byte>)
    requires p + |s| <= |mem| && mem[p..p + |s|] == s
    ensures Slice(mem, p, |s|) == s
  {
    forall i | 0 <= i < |s|
      ensures Slice(mem, p, |s|)[i] == s[i]
    {
      assert mem[p..p + |s|][i] == mem[p + i] == At(mem, p + i);
    }
  }

  // A header in front of the cursor makes the parser skip to the payload behind it.
  lemma HeaderParsed(mem: seq<byte>, p: nat, end: nat, d: Demux, u: Unit)
    requires WellFormed(u) && !u.Pes?
    requires p + |Header(u)| <= end <= |mem| && mem[p..p + |Header(u)|] == Header(u)
    ensures Parse(mem, p, end, d) == Parse(mem, p + |Header(u)|, end, d)
  {
    var h := Header(u);
    forall i | 0 <= i < |h|
      ensures At(mem, p + i) == h[i]
    {
      assert mem[p..p + |h|][i] == mem[p + i];
    }
    assert At(mem, p + 3) == h[3] && At(mem, p + 2) == h[2] && At(mem, p + 1) == h[1] && At(mem, p + 0) == h[0];
    assert At(mem, p + 4) == h[4] && At(mem, p + 5) == h[5];
    if u.Pack? {
      assert At(mem, p + 13) == h[13];
    }
  }

  // A PES unit, the first k bytes of its payload included: all of them, or as many as the packet has left.
  lemma PesParsed(mem: seq<byte>, p: nat, end: nat, d: Demux, u: Unit, k: nat)
    requires WellFormed(u) && u.Pes? && k <= |u.payload|
    requires p + |Header(u)| + k <= end <= |mem| && mem[p..p + |Header(u)| + k] == Header(u) + u.payload[..k]
    requires k < |u.payload| ==> end == p + |Header(u)| + k
    ensures Parse(mem, p, end, d) ==
            if k == |u.payload| then Parse(mem, p + |Header(u)| + k, end, Demux(0, true, d.output + u.payload))
            else (Demux(|u.payload| - k, true, d.output + u.payload[..k]), AtEnd)
  {
    var h := Header(u);
    var all := h + u.payload[..k];
    forall i | 0 <= i < |all|
      ensures At(mem, p + i) == all[i]
    {
      assert mem[p..p + |h| + k][i] == mem[p + i];
    }
    assert At(mem, p + 3) == all[3] && At(mem, p + 2) == all[2] && At(mem, p + 1) == all[1] && At(mem, p + 0) == all[0];
    assert At(mem, p + 4) == all[4] && At(mem, p + 5) == all[5] && At(mem, p + 8) == all[8];
    var q := p + |h|;
    assert mem[q..q + k] == all[|h|..] == u.payload[..k];
    SliceOf(mem, q, u.payload[..k]);
    assert u.payload[..|u.payload|] == u.payload;
  }

  function AfterUnit(d: Demux, u: Unit): Demux {
    if u.Pes? then Demux(0, true, d.output + u.payload) else d
  }

  lemma UnitParsed(mem: seq<byte>, p: nat, end: nat, d: Demux, u: Unit, n: nat)
    requires WellFormed(u) && n == |Header(u)| + |Payload(u)|
    requires p + n <= end <= |mem| && mem[p..p + n] == Header(u) + Payload(u)
    ensures Parse(mem, p, end, d) == Parse(mem, p + n, end, AfterUnit(d, u))
  {
    hide Parse, Header;
    if u.Pes? {
      assert u.payload[..|u.payload|] == u.payload;
      PesParsed(mem, p, end, d, u, |u.payload|);
    } else {
      assert Header(u) + [] == Header(u);
      HeaderParsed(mem, p, end, d, u);
    }
  }

  lemma LastUnitParsed(mem: seq<byte>, p: nat, end: nat, d: Demux, u: Unit, k: nat)
    requires WellFormed(u) && k <= |Payload(u)| && d.rawLength == 0
    requires p <= end <= |mem| && mem[p..end] == Header(u) + Payload(u)[..k]
    ensures var (d', o) := Parse(mem, p, end, d);
            && o == AtEnd && d'.output == d.output + Payload(u)[..k]
            && d'.rawLength == |Payload(u)| - k && (k < |Payload(u)| ==> d'.videoFlag)
  {
    hide Header;
    assert end == p + |Header(u)| + k;
    if u.Pes? {
      PesParsed(mem, p, end, d, u, k);
      assert u.payload[..|u.payload|] == u.payload;
    } else {
      assert Header(u) + [] == Header(u);
      HeaderParsed(mem, p, end, d, u);
    }
  }

  lemma SerializeStep(units: seq<Unit>, j: nat)
    requires AllWellFormed(units) && 0 < j <= |units|
    ensures AllWellFormed(units[1..]) && AllWellFormed(units[..j]) && AllWellFormed(units[1..][..j - 1])
    ensures Serialize(units[..j]) == Header(units[0]) + Payload(units[0]) + Serialize(units[1..][..j - 1])
    ensures Payloads(units[..j]) == Payload(units[0]) + Payloads(units[1..][..j - 1])
  {
    hide Header;
    assert units[..j][0] == units[0] && units[..j][1..] == units[1..][..j - 1];
  }

  // Whole units, then a unit up to k bytes into its payload, where the packet ends.
  lemma {:induction false} UnitsParsed(mem: seq<byte>, p: nat, end: nat, d: Demux, units: seq<Unit>, j: nat, k: nat)
    requires AllWellFormed(units) && j < |units| && k <= |Payload(units[j])| && d.rawLength == 0
    requires p <= end <= |mem|
    requires mem[p..end] == Serialize(units[..j]) + (Header(units[j]) + Payload(units[j])[..k])
    ensures var (d', o) := Parse(mem, p, end, d);
            && o == AtEnd && d'.output == d.output + (Payloads(units[..j]) + Payload(units[j])[..k])
            && d'.rawLength == |Payload(units[j])| - k && (k < |Payload(units[j])| ==> d'.videoFlag)
    decreases j
  {
    hide Parse, Header, Payload;
    var u := units[0];
    if j == 0 {
      assert mem[p..end] == Header(u) + Payload(u)[..k];
      LastUnitParsed(mem, p, end, d, u, k);
    } else {
      SerializeStep(units, j);
      hide Serialize, Payloads;
      var whole, last := Header(u) + Payload(u), Header(units[j]) + Payload(units[j])[..k];
      var between := Serialize(units[1..][..j - 1]);
      Associate(whole, between, last);
      SliceSplits(mem, p, end, whole, between + last);
      UnitParsed(mem, p, end, d, u, |whole|);
      UnitsParsed(mem, p + |whole|, end, AfterUnit(d, u), units[1..], j - 1, k);
      AfterUnitOutput(d, u);
      Associate(Payload(u), Payloads(units[1..][..j - 1]), Payload(units[j])[..k]);
      Associate(d.output, Payload(u), Payloads(units[1..][..j - 1]) + Payload(units[j])[..k]);
    }
  }

  lemma Associate(x: seq<byte>, y: seq<byte>, z: seq<byte>)
    ensures (x + y) + z == x + (y + z)
  {
  }

  lemma SliceSplits(mem: seq<byte>, p: nat, end: nat, x: seq<byte>, y: seq<byte>)
    requires p <= end <= |mem| && mem[p..end] == x + y
    ensures p + |x| <= end && mem[p..p + |x|] == x && mem[p + |x|..end] == y
  {
    var bytes := mem[p..end];
    assert mem[p..p + |x|] == bytes[..|x|] == x;
    assert mem[p + |x|..end] == bytes[|x|..] == y;
  }

  lemma AfterUnitOutput(d: Demux, u: Unit)
    ensures AfterUnit(d, u).output == d.output + Payload(u)
    ensures d.rawLength == 0 ==> AfterUnit(d, u).rawLength == 0
  {
  }

  lemma {:induction false} PayloadsSplit(units: seq<Unit>, j: nat)
    requires j < |units|
    ensures Payloads(units) == Payloads(units[..j]) + (Payload(units[j]) + Payloads(units[j + 1..]))
  {
    if j > 0 {
      PayloadsSplit(units[1..], j - 1);
      assert units[..j][1..] == units[1..][..j - 1];
      assert units[1..][j..] == units[j + 1..];
    }
  }

  // One packet: what is written and what is still owed always add up to the same bytes.
  lemma PacketParsed(mem: seq<byte>, p: nat, end: nat, d: Demux, r: Rest, r': Rest)
    requires AllWellFormed(r.units) && Tracks(d, r)
    requires p <= end <= |mem| && Cut(r, mem[p..end], r')
    requires r.fragment != [] && p < end ==> !Recognised(mem, p)
    ensures var (d', o) := Parse(mem, p, end, d);
            o != Undefined && AllWellFormed(r'.units) && Tracks(d', r') && d'.output + Owed(r') == d.output + Owed(r)
  {
    hide Parse, Recognised, Owed, CutInFragment, CutInUnit;
    var packet := mem[p..end];
    if k: nat :| CutInFragment(r, packet, r', k) {
      CutFragmentParsed(mem, p, end, d, r, r', k);
    } else {
      var j: nat, k: nat :| CutInUnit(r, packet, r', j, k);
      CutUnitParsed(mem, p, end, d, r, r', j, k);
    }
  }

  lemma CutFragmentParsed(mem: seq<byte>, p: nat, end: nat, d: Demux, r: Rest, r': Rest, k: nat)
    requires AllWellFormed(r.units) && Tracks(d, r)
    requires p <= end <= |mem| && CutInFragment(r, mem[p..end], r', k)
    requires r.fragment != [] && p < end ==> !Recognised(mem, p)
    ensures var (d', o) := Parse(mem, p, end, d);
            o != Undefined && AllWellFormed(r'.units) && Tracks(d', r') && d'.output + Owed(r') == d.output + Owed(r)
  {
    hide Payloads;
    if k > 0 {
      SliceOf(mem, p, r.fragment[..k]);
    }
    Regroup(d.output, [], [], r.fragment, k, Payloads(r.units));
  }

  lemma CutUnitParsed(mem: seq<byte>, p: nat, end: nat, d: Demux, r: Rest, r': Rest, j: nat, k: nat)
    requires AllWellFormed(r.units) && Tracks(d, r)
    requires p <= end <= |mem| && CutInUnit(r, mem[p..end], r', j, k)
    requires r.fragment != [] && p < end ==> !Recognised(mem, p)
    ensures var (d', o) := Parse(mem, p, end, d);
            o != Undefined && AllWellFormed(r'.units) && Tracks(d', r') && d'.output + Owed(r') == d.output + Owed(r)
  {
    hide Parse, Header, Payload, Serialize, Payloads, Recognised;
    var packet, f, u := mem[p..end], r.fragment, r.units[j];
    var rest := Serialize(r.units[..j]) + (Header(u) + Payload(u)[..k]);
    var q := p + |f|;
    SliceSplits(mem, p, end, f, rest);
    var d0 := if f == [] then d else Demux(0, false, d.output + f);
    if f != [] {
      HeaderNotEmpty(u);
      FragmentFinished(mem, p, end, d, f);
    }
    UnitsParsed(mem, q, end, d0, r.units, j, k);
    PayloadsSplit(r.units, j);
    assert d0.output == d.output + f;
    Regroup(d.output, f, Payloads(r.units[..j]), Payload(u), k, Payloads(r.units[j + 1..]));
  }

  lemma Regroup(a: seq<byte>, f: seq<byte>, x: seq<byte>, y: seq<byte>, k: nat, z: seq<byte>)
    requires k <= |y|
    ensures (a + f) + (x + y[..k]) + (y[k..] + z) == a + (f + (x + (y + z)))
  {
    assert y == y[..k] + y[k..];
  }

  lemma HeaderNotEmpty(u: Unit)
    requires WellFormed(u)
    ensures |Header(u)| > 0
  {
  }

  lemma FragmentFinished(mem: seq<byte>, p: nat, end: nat, d: Demux, f: seq<byte>)
    requires f != [] && d.rawLength == |f| && d.videoFlag && p + |f| < end <= |mem| && mem[p..p + |f|] == f
    requires !Recognised(mem, p)
    ensures Parse(mem, p, end, d) == Parse(mem, p + |f|, end, Demux(0, false, d.output + f))
  {
    SliceOf(mem, p, f);
  }

  // ----- RTP packets: section 5.1 of RFC 3550 -----

  datatype Extension = Extension(profile: seq<byte>, words: seq<byte>)

  // A packet of payload type 96 without padding. Identifiers and words are four bytes each.
  datatype Rtp = Rtp(marker: bool, sequence: seq<byte>, timestamp: seq<byte>, ssrc: seq<byte>, csrcs: seq<byte>,
                     extension: Option<Extension>, payload: seq<byte>)

  predicate WellFormedRtp(k: Rtp) {
    && |k.sequence| == 2 && |k.timestamp| == 4 && |k.ssrc| == 4
    && |k.csrcs| % 4 == 0 && |k.csrcs| / 4 < 16
    && (k.extension.Some? ==>
          |k.extension.value.profile| == 2 && |k.extension.value.words| % 4 == 0 && |k.extension.value.words| / 4 < 0x1_0000)
  }

  function FixedHeader(k: Rtp): (h: seq<byte>)
    requires WellFormedRtp(k)
    ensures |h| == 12 && h[1] % 128 == 96
    ensures h[0] / 16 % 2 == 1 <==> k.extension.Some?
  {
    [0x80 + (if k.extension.Some? then 0x10 else 0) + |k.csrcs| / 4, if k.marker then 0x80 + 96 else 96]
    + k.sequence + k.timestamp + k.ssrc
  }

  function ExtensionHeader(k: Rtp): seq<byte>
    requires WellFormedRtp(k)
  {
    match k.extension
    case None => []
    case Some(x) => x.profile + Bytes16(|x.words| / 4) + x.words
  }

  function PrintRtp(k: Rtp): seq<byte>
    requires WellFormedRtp(k)
  {
    FixedHeader(k) + k.csrcs + ExtensionHeader(k) + k.payload
  }

  // A datagram is the first size bytes of the receive buffer.
  datatype Datagram = Datagram(mem: seq<byte>, size: nat)

  ghost predicate Holds(g: Datagram, k: Rtp) {
    g.size <= |g.mem| && WellFormedRtp(k) && g.mem[..g.size] == PrintRtp(k)
  }

  lemma RtpBytes(g: Datagram, k: Rtp)
    requires Holds(g, k)
    ensures |k.payload| <= g.size && g.mem[g.size - |k.payload|..g.size] == k.payload
    ensures At(g.mem, 1) % 128 == 96 && (At(g.mem, 0) / 16 % 2 == 1 <==> k.extension.Some?)
    ensures k.extension.Some? ==>
            Length16(g.mem, 14) == if k.csrcs == [] then |k.extension.value.words| / 4 else Word16(k.csrcs[2], k.csrcs[3])
  {
    hide FixedHeader;
    var h, x := FixedHeader(k), ExtensionHeader(k);
    var bytes := g.mem[..g.size];
    assert bytes[0] == h[0] && bytes[1] == h[1];
    if k.extension.Some? {
      if k.csrcs == [] {
        assert bytes[14] == x[2] && bytes[15] == x[3];
      } else {
        assert bytes[14] == k.csrcs[2] && bytes[15] == k.csrcs[3];
      }
    }
    assert bytes[g.size - |k.payload|..] == k.payload;
  }

  // The code takes the payload from its first byte exactly when no contributing source is listed, or
  // the first one listed happens to read as the length of the list and the extension together.
  lemma PayloadFound(g: Datagram, k: Rtp)
    requires Holds(g, k)
    ensures RtpStart(g.mem) == g.size - |k.payload| <==>
            k.csrcs == [] || (k.extension.Some?
              && Word16(k.csrcs[2], k.csrcs[3]) == |k.csrcs| / 4 + |k.extension.value.words| / 4)
  {
    RtpBytes(g, k);
  }

  // A packet without contributing sources is parsed from the first byte of its payload to the last.
  lemma RtpParsed(g: Datagram, k: Rtp, d: Demux)
    requires Holds(g, k) && k.csrcs == []
    ensures |k.payload| <= g.size && g.mem[g.size - |k.payload|..g.size] == k.payload
    ensures ParseRtp(g.mem, g.size, d) == Parse(g.mem, g.size - |k.payload|, g.size, d)
  {
    hide Parse;
    RtpBytes(g, k);
    PayloadFound(g, k);
  }

  // ----- Whole deliveries -----

  // The demultiplexer's state after a sequence of datagrams.
  function Feed(d: Demux, datagrams: seq<Datagram>): Demux {
    if datagrams == [] then d
    else
      var g := datagrams[|datagrams| - 1];
      ParseRtp(g.mem, g.size, Feed(d, datagrams[..|datagrams| - 1])).0
  }

  // The datagram holds RTP packet k, whose payload is the next packet of the stream; a continued payload
  // does not look like the start of a unit.
  ghost predicate Carries(g: Datagram, k: Rtp, r: Rest, r': Rest) {
    && Holds(g, k) && k.csrcs == []
    && AllWellFormed(r.units) && Cut(r, k.payload, r')
    && (r.fragment != [] && k.payload != [] ==> !Recognised(g.mem, |PrintRtp(k)| - |k.payload|))
  }

  ghost predicate Delivery(datagrams: seq<Datagram>, packets: seq<Rtp>, rests: seq<Rest>) {
    && |datagrams| == |packets| && |rests| == |datagrams| + 1
    && forall i :: 0 <= i < |datagrams| ==> Carries(datagrams[i], packets[i], rests[i], rests[i + 1])
  }

  const FRESH := Demux(0, false, [])

  // After n datagrams the bytes written and the bytes still owed make up all the payloads, in order, and
  // the length global says how much of a payload is outstanding.
  lemma {:induction false} NothingLost(units: seq<Unit>, datagrams: seq<Datagram>, packets: seq<Rtp>, rests: seq<Rest>, n: nat)
    requires AllWellFormed(units) && Delivery(datagrams, packets, rests) && rests[0] == Rest([], units) && n <= |datagrams|
    ensures var d := Feed(FRESH, datagrams[..n]);
            d.output + Owed(rests[n]) == Payloads(units) && Tracks(d, rests[n]) && AllWellFormed(rests[n].units)
  {
    hide Parse, ParseRtp, PrintRtp, WellFormedRtp, Payloads, Recognised, Cut;
    if n == 0 {
      assert datagrams[..0] == [];
      assert [] + ([] + Payloads(units)) == Payloads(units);
    } else {
      NothingLost(units, datagrams, packets, rests, n - 1);
      assert datagrams[..n][..n - 1] == datagrams[..n - 1];
      var g := datagrams[n - 1];
      var k := packets[n - 1];
      assert Carries(g, k, rests[n - 1], rests[n]);
      RtpParsed(g, k, Feed(FRESH, datagrams[..n - 1]));
      PacketParsed(g.mem, g.size - |k.payload|, g.size, Feed(FRESH, datagrams[..n - 1]), rests[n - 1], rests[n]);
    }
  }

  // Bytes written plus bytes outstanding are the payload bytes declared so far.
  lemma DeclaredSoFar(units: seq<Unit>, datagrams: seq<Datagram>, packets: seq<Rtp>, rests: seq<Rest>, n: nat)
    requires AllWellFormed(units) && Delivery(datagrams, packets, rests) && rests[0] == Rest([], units) && n <= |datagrams|
    ensures var d := Feed(FRESH, datagrams[..n]);
            |d.output| + d.rawLength == |Payloads(units)| - |Payloads(rests[n].units)|
  {
    NothingLost(units, datagrams, packets, rests, n);
  }

  // However the stream was cut, the whole delivery yields the concatenated payloads.
  lemma StreamRecovered(units: seq<Unit>, datagrams: seq<Datagram>, packets: seq<Rtp>, rests: seq<Rest>)
    requires AllWellFormed(units) && Delivery(datagrams, packets, rests) && rests[0] == Rest([], units)
    requires rests[|datagrams|] == Rest([], [])
    ensures Feed(FRESH, datagrams).output == Payloads(units)
  {
    NothingLost(units, datagrams, packets, rests, |datagrams|);
    assert datagrams[..|datagrams|] == datagrams;
  }

  method Receive(datagrams: seq<Datagram>) returns (output: seq<byte>)
    ensures output == Feed(FRESH, datagrams).output
  {
    var demux := new Demultiplexer();
    for i := 0 to |datagrams|
      invariant fresh(demux) && demux.State() == Feed(FRESH, datagrams[..i])
    {
      assert datagrams[..i + 1][..i] == datagrams[..i];
      var _ := demux.RtpParse(datagrams[i].mem, datagrams[i].size);
    }
    assert datagrams[..|datagrams|] == datagrams;
    output := demux.output;
  }
}
