/**
 The multipart/form-data parser: it finds the parts of a body (section 5.1.1 of RFC 2046) and hands
 the content of each to a callback.
 */
module Multipart {
  import opened Options

  const CRLF := "\r\n"

  // The bytes of s lie in memory at p.
  predicate Eq(mem: string, p: nat, s: string) {
    p + |s| <= |mem| && mem[p..p + |s|] == s
  }

  function Delimiter(boundary: string): string {
    "--" + boundary
  }

  // A delimiter line at p, or the closing delimiter: the index behind it, relative to p.
  function BoundaryCmp(mem: string, p: nat, boundary: string): (e: Option<nat>)
    ensures e.Some? ==> 2 < e.value && Eq(mem, p, Delimiter(boundary))
  {
    var q := p + 2 + |boundary|;
    if !Eq(mem, p, "--" + boundary) then None
    else if Eq(mem, q, CRLF) then Some(2 + |boundary| + 2)
    else if Eq(mem, q, "\n") then Some(2 + |boundary| + 1)
    else if Eq(mem, q, "--") then Some(2 + |boundary| + 2)
    else None
  }

  // The distance from p to the next delimiter that starts before end.
  function NextBoundary(mem: string, p: nat, end: nat, boundary: string): Option<nat>
    decreases end - p
  {
    if p >= end then None
    else if BoundaryCmp(mem, p, boundary).Some? then Some(0)
    else
      var r := NextBoundary(mem, p + 1, end, boundary);
      if r.None? then None else Some(r.value + 1)
  }

  method FindNext(mem: string, str: nat, end: nat, boundary: string) returns (r: int)
    ensures var n := NextBoundary(mem, str, end, boundary);
      r == if n.Some? then n.value else -1
  {
    var ptr := str;
    while ptr < end
      invariant str <= ptr && (ptr <= end || ptr == str)
      invariant var n, m := NextBoundary(mem, str, end, boundary), NextBoundary(mem, ptr, end, boundary);
        if m.None? then n.None? else n == Some(ptr - str + m.value)
      decreases end - ptr
    {
      if BoundaryCmp(mem, ptr, boundary).Some? {
        return ptr - str;
      }
      ptr := ptr + 1;
    }
    r := -1;
  }

  // The place behind the empty line that ends the headers, or end.
  function BehindHeaders(mem: string, p: nat, end: nat): (q: nat)
    ensures p <= q && (q < end ==> p + 2 <= q)
    decreases end - p
  {
    if p >= end then p
    else if Eq(mem, p, "\r\n\r\n") then p + 4
    else if Eq(mem, p, "\n\n") then p + 2
    else BehindHeaders(mem, p + 1, end)
  }

  // What the callback gets: where the content starts, and the size passed with it.
  datatype Call = Call(start: nat, size: int)

  // The line break before a delimiter belongs to it when the headers ended with one of the same kind.
  function Trimmed(mem: string, q: nat, r: nat): int {
    if q >= 2 && Eq(mem, q - 2, CRLF) then r - 2 else r
  }

  // The callbacks of one pass over mem[p..end].
  function Parse(mem: string, p: nat, end: nat, boundary: string): seq<Call>
    decreases if p <= end then end - p else 0
  {
    if p >= end then []
    else
      var e := BoundaryCmp(mem, p, boundary);
      if e.None? then Parse(mem, p + 1, end, boundary)
      else if p + e.value >= end - 1 then Parse(mem, p + e.value + 1, end, boundary)
      else
        var q := BehindHeaders(mem, p + e.value, end);
        var r := if q < end then NextBoundary(mem, q, end, boundary) else None;
        if r.None? then Parse(mem, q + 1, end, boundary)
        else
          var n := Trimmed(mem, q, r.value);
          [Call(q, n)] + Parse(mem, q + n, end, boundary)
  }

  class Callback {
    var calls: seq<Call>

    constructor ()
      ensures calls == []
    {
      calls := [];
    }

    method Invoke(start: nat, size: int)
      modifies this
      ensures calls == old(calls) + [Call(start, size)]
    {
      calls := calls + [Call(start, size)];
    }
  }

  method SkipHeaders(mem: string, p: nat, end: nat) returns (ptr: nat)
    ensures ptr == BehindHeaders(mem, p, end)
  {
    ptr := p;
    while ptr < end
      invariant p <= ptr && BehindHeaders(mem, ptr, end) == BehindHeaders(mem, p, end)
      decreases end - ptr
    {
      if Eq(mem, ptr, "\r\n\r\n") {
        return ptr + 4;
      }
      if Eq(mem, ptr, "\n\n") {
        return ptr + 2;
      }
      ptr := ptr + 1;
    }
  }

  method FromDataParse(mem: string, size: nat, boundary: string, func: Callback)
    modifies func
    ensures func.calls == old(func.calls) + Parse(mem, 0, size, boundary)
  {
    hide BoundaryCmp, NextBoundary, BehindHeaders, Eq;
    var ptr, end := 0, size;
    while ptr < end
      invariant old(func.calls) + Parse(mem, 0, size, boundary) == func.calls + Parse(mem, ptr, end, boundary)
      decreases end - ptr
    {
      ghost var rest := Parse(mem, ptr, end, boundary);
      var e := BoundaryCmp(mem, ptr, boundary);
      if e.Some? {
        ptr := ptr + e.value;
        if ptr < end - 1 {
          ptr := SkipHeaders(mem, ptr, end);
          if ptr < end {
            var ret := FindNext(mem, ptr, end, boundary);
            if ret != -1 {
              if Eq(mem, ptr - 2, CRLF) {
                ret := ret - 2;
              }
              func.Invoke(ptr, ret);
              ptr := ptr + ret;
              assert rest == [func.calls[|func.calls| - 1]] + Parse(mem, ptr, end, boundary);
              continue;
            }
          }
        }
      }
      ptr := ptr + 1;
      assert rest == Parse(mem, ptr, end, boundary);
    }
    assert Parse(mem, ptr, end, boundary) == [];
  }

  // ----- Printing a body -----

  // Header lines and the content of one part.
  datatype Part = Part(headers: seq<string>, content: string)

  predicate NoBreaks(s: string) {
    '\r' !in s && '\n' !in s
  }

  ghost predicate Occurs(s: string, t: string) {
    exists i :: 0 <= i <= |s| && Eq(s, i, t)
  }

  ghost predicate Sound(part: Part, boundary: string) {
    && part.headers != []
    && (forall i :: 0 <= i < |part.headers| ==> part.headers[i] != "" && NoBreaks(part.headers[i]))
    && !Occurs(part.content, Delimiter(boundary))
  }

  function Headers(lines: seq<string>): string {
    if lines == [] then CRLF else lines[0] + CRLF + Headers(lines[1..])
  }

  function Printed(parts: seq<Part>, boundary: string): string {
    if parts == [] then "--" + boundary + "--"
    else
      "--" + boundary + CRLF + Headers(parts[0].headers) + parts[0].content + CRLF
      + Printed(parts[1..], boundary)
  }

  // The callbacks have the contents of the parts, in order.
  ghost predicate Delivered(mem: string, calls: seq<Call>, parts: seq<Part>) {
    |calls| == |parts| && forall i :: 0 <= i < |calls| ==>
      0 <= calls[i].size && calls[i].start + calls[i].size <= |mem|
      && mem[calls[i].start..calls[i].start + calls[i].size] == parts[i].content
  }

  // ----- Parsing it again -----

  lemma EqSplit(mem: string, p: nat, s: string, t: string)
    ensures Eq(mem, p, s + t) <==> Eq(mem, p, s) && Eq(mem, p + |s|, t)
  {
    if p + |s| + |t| <= |mem| {
      var a, b := mem[p..p + |s|], mem[p + |s|..p + |s| + |t|];
      assert mem[p..p + |s + t|] == a + b;
      assert (s + t)[..|s|] == s && (s + t)[|s|..] == t;
      assert (a + b)[..|s|] == a && (a + b)[|s|..] == b;
    }
  }

  lemma EqWithin(mem: string, p: nat, s: string, i: nat, n: nat)
    requires Eq(mem, p, s) && i + n <= |s|
    ensures Eq(mem, p + i, s[i..i + n])
  {
    assert s == s[..i] + (s[i..i + n] + s[i + n..]);
    EqSplit(mem, p, s[..i], s[i..i + n] + s[i + n..]);
    EqSplit(mem, p + i, s[i..i + n], s[i + n..]);
  }

  // Memory that holds s holds its characters.
  lemma EqAt(mem: string, p: nat, s: string, i: nat)
    requires Eq(mem, p, s) && i < |s|
    ensures p + i < |mem| && mem[p + i] == s[i]
  {
    assert mem[p..p + |s|][i] == mem[p + i];
  }

  // Where mem reads s, t cannot be read at a place where it would put another character.
  lemma Clash(mem: string, p: nat, s: string, i: nat, q: nat, t: string, j: nat)
    requires Eq(mem, p, s) && i < |s| && j < |t| && p + i == q + j && s[i] != t[j]
    ensures !Eq(mem, q, t)
  {
    if Eq(mem, q, t) {
      EqAt(mem, p, s, i);
      EqAt(mem, q, t, j);
    }
  }

  // No delimiter starts in the content or in the line break behind it.
  lemma NoneInside(mem: string, p: nat, content: string, boundary: string, i: nat)
    requires Eq(mem, p, content + CRLF) && i < |content| + 2
    requires NoBreaks(boundary) && !Occurs(content, Delimiter(boundary))
    ensures !Eq(mem, p + i, Delimiter(boundary))
  {
    var d, s := Delimiter(boundary), content + CRLF;
    if i > |content| {
      Clash(mem, p, s, i, p + i, d, 0);
    } else if i + |d| > |content| {
      Clash(mem, p, s, |content|, p + i, d, |content| - i);
    } else if Eq(mem, p + i, d) {
      assert Eq(content, i, d) by {
        EqSplit(mem, p, content, CRLF);
        EqWithin(mem, p, content, i, |d|);
      }
      assert Occurs(content, d);
    }
  }

  // The next delimiter is the one behind the content and its line break.
  lemma {:induction false} DelimiterFound(mem: string, p: nat, end: nat, content: string, boundary: string, i: nat)
    requires Eq(mem, p, content + CRLF) && NoBreaks(boundary) && !Occurs(content, Delimiter(boundary))
    requires BoundaryCmp(mem, p + |content| + 2, boundary).Some? && p + |content| + 2 < end
    requires i <= |content| + 2
    ensures NextBoundary(mem, p + i, end, boundary) == Some(|content| + 2 - i)
    decreases |content| + 2 - i
  {
    hide Eq, Occurs;
    if i < |content| + 2 {
      NoneInside(mem, p, content, boundary, i);
      DelimiterFound(mem, p, end, content, boundary, i + 1);
    }
  }

  // Inside a header line nothing ends the headers.
  lemma {:induction false} LineSkipped(mem: string, p: nat, end: nat, line: string, next: char, i: nat)
    requires Eq(mem, p, line + CRLF + [next]) && NoBreaks(line) && next != '\r' && next != '\n'
    requires i <= |line| + 2 && p + |line| + 2 <= end
    ensures BehindHeaders(mem, p + i, end) == BehindHeaders(mem, p + |line| + 2, end)
    decreases |line| + 2 - i
  {
    var s := line + CRLF + [next];
    if i < |line| + 2 {
      if i < |line| {
        Clash(mem, p, s, i, p + i, "\r\n\r\n", 0);
        Clash(mem, p, s, i, p + i, "\n\n", 0);
      } else if i == |line| {
        Clash(mem, p, s, i + 2, p + i, "\r\n\r\n", 2);
        Clash(mem, p, s, i, p + i, "\n\n", 0);
      } else {
        Clash(mem, p, s, i, p + i, "\r\n\r\n", 0);
        Clash(mem, p, s, i + 1, p + i, "\n\n", 1);
      }
      LineSkipped(mem, p, end, line, next, i + 1);
    }
  }

  lemma {:induction false} LastLineSkipped(mem: string, p: nat, end: nat, line: string, i: nat)
    requires Eq(mem, p, line + "\r\n\r\n") && NoBreaks(line) && i <= |line| && p + |line| + 4 <= end
    ensures BehindHeaders(mem, p + i, end) == p + |line| + 4
    decreases |line| - i
  {
    if i < |line| {
      Clash(mem, p, line + "\r\n\r\n", i, p + i, "\r\n\r\n", 0);
      Clash(mem, p, line + "\r\n\r\n", i, p + i, "\n\n", 0);
      LastLineSkipped(mem, p, end, line, i + 1);
    } else {
      EqSplit(mem, p, line, "\r\n\r\n");
    }
  }

  lemma HeadersStart(lines: seq<string>)
    requires lines != [] && lines[0] != ""
    ensures Headers(lines) != "" && Headers(lines)[0] == lines[0][0]
  {
  }

  lemma LineBefore(mem: string, p: nat, s: string, rest: string, next: char)
    requires Eq(mem, p, s + rest) && rest != "" && rest[0] == next
    ensures Eq(mem, p, s + [next])
  {
    assert s + rest == s + [next] + rest[1..];
    EqSplit(mem, p, s + [next], rest[1..]);
  }

  lemma {:induction false} HeadersSkipped(mem: string, p: nat, end: nat, lines: seq<string>)
    requires lines != [] && Eq(mem, p, Headers(lines)) && p + |Headers(lines)| <= end
    requires forall i :: 0 <= i < |lines| ==> lines[i] != "" && NoBreaks(lines[i])
    ensures BehindHeaders(mem, p, end) == p + |Headers(lines)|
    decreases |lines|
  {
    hide Headers, BehindHeaders, Eq, NoBreaks;
    var line := lines[0];
    HeadersOpened(lines);
    if |lines| == 1 {
      LastLineSkipped(mem, p, end, line, 0);
    } else {
      var rest := Headers(lines[1..]);
      assert lines[1] != "" && NoBreaks(lines[1]);
      BreakIsOther(lines[1]);
      EqSplit(mem, p, line + CRLF, rest);
      HeadersStart(lines[1..]);
      LineBefore(mem, p, line + CRLF, rest, lines[1][0]);
      LineSkipped(mem, p, end, line, lines[1][0], 0);
      HeadersSkipped(mem, p + |line| + 2, end, lines[1..]);
    }
  }

  lemma HeadersOpened(lines: seq<string>)
    requires lines != []
    ensures Headers(lines) == lines[0] + CRLF + Headers(lines[1..])
    ensures |lines| == 1 ==> Headers(lines) == lines[0] + "\r\n\r\n"
  {
    if |lines| == 1 {
      assert Headers(lines[1..]) == CRLF;
      assert CRLF + CRLF == "\r\n\r\n";
      assert lines[0] + CRLF + CRLF == lines[0] + (CRLF + CRLF);
    }
  }

  lemma BreakIsOther(line: string)
    requires line != "" && NoBreaks(line)
    ensures line[0] != '\r' && line[0] != '\n'
  {
  }

  // A delimiter line and the closing delimiter are both recognised.
  lemma DelimiterAhead(mem: string, p: nat, boundary: string, parts: seq<Part>)
    requires Eq(mem, p, Printed(parts, boundary))
    ensures BoundaryCmp(mem, p, boundary).Some?
    ensures parts != [] ==> BoundaryCmp(mem, p, boundary).value == |Delimiter(boundary)| + 2
    ensures |Printed(parts, boundary)| >= |Delimiter(boundary)| + 2
  {
    hide Headers, Eq, Printed;
    var d := Delimiter(boundary);
    if parts == [] {
      ClosingPrinted(boundary);
      EqSplit(mem, p, d, "--");
      Clash(mem, p + |d|, "--", 0, p + |d|, CRLF, 0);
    } else {
      assert Printed(parts, boundary) + "" == Printed(parts, boundary);
      BodySplit(mem, p, boundary, parts, "");
    }
  }

  lemma ClosingPrinted(boundary: string)
    ensures Printed([], boundary) == Delimiter(boundary) + "--"
  {
  }

  // One part: its headers are skipped, its content is delivered, and parsing goes on at the next
  // delimiter.
  lemma PartParsed(mem: string, p: nat, end: nat, boundary: string, part: Part, next: nat)
    requires NoBreaks(boundary) && Sound(part, boundary)
    requires BoundaryCmp(mem, p, boundary) == Some(|Delimiter(boundary)| + 2)
    requires var h := p + |Delimiter(boundary)| + 2;
      && Eq(mem, h, Headers(part.headers)) && next == h + |Headers(part.headers)| + |part.content| + 2
      && Eq(mem, h + |Headers(part.headers)|, part.content + CRLF)
    requires BoundaryCmp(mem, next, boundary).Some? && next + 1 < end
    ensures var q := p + |Delimiter(boundary)| + 2 + |Headers(part.headers)|;
      Parse(mem, p, end, boundary) == [Call(q, |part.content|)] + Parse(mem, next, end, boundary)
  {
    hide BoundaryCmp, BehindHeaders, NextBoundary, Headers, Parse, Eq;
    var h := p + |Delimiter(boundary)| + 2;
    var q := h + |Headers(part.headers)|;
    var n := |part.content|;
    HeadersSkipped(mem, h, end, part.headers);
    HeadersEnd(mem, h, part.headers);
    DelimiterFound(mem, q, end, part.content, boundary, 0);
    CallMade(mem, p, end, boundary, q, n);
    BreakStepped(mem, q, part.content, boundary, n);
    BreakStepped(mem, q, part.content, boundary, n + 1);
    SteppedOver(mem, q + n, end, boundary);
    SteppedOver(mem, q + n + 1, end, boundary);
  }

  lemma CallMade(mem: string, p: nat, end: nat, boundary: string, q: nat, n: nat)
    requires BoundaryCmp(mem, p, boundary).Some? && p + BoundaryCmp(mem, p, boundary).value < end - 1
    requires BehindHeaders(mem, p + BoundaryCmp(mem, p, boundary).value, end) == q < end
    requires NextBoundary(mem, q, end, boundary) == Some(n + 2) && Eq(mem, q - 2, CRLF)
    ensures Parse(mem, p, end, boundary) == [Call(q, n)] + Parse(mem, q + n, end, boundary)
  {
    hide BoundaryCmp, BehindHeaders, NextBoundary, Eq;
  }

  lemma SteppedOver(mem: string, p: nat, end: nat, boundary: string)
    requires BoundaryCmp(mem, p, boundary).None? && p < end
    ensures Parse(mem, p, end, boundary) == Parse(mem, p + 1, end, boundary)
  {
    hide BoundaryCmp, BehindHeaders, NextBoundary, Eq;
  }

  lemma BreakStepped(mem: string, q: nat, content: string, boundary: string, i: nat)
    requires Eq(mem, q, content + CRLF) && |content| <= i < |content| + 2
    requires NoBreaks(boundary) && !Occurs(content, Delimiter(boundary))
    ensures BoundaryCmp(mem, q + i, boundary).None?
  {
    NoneInside(mem, q, content, boundary, i);
  }

  // The headers end with a line break.
  lemma {:induction false} HeadersEnd(mem: string, p: nat, lines: seq<string>)
    requires Eq(mem, p, Headers(lines))
    ensures |Headers(lines)| >= 2 && Eq(mem, p + |Headers(lines)| - 2, CRLF)
    decreases |lines|
  {
    if lines != [] {
      EqSplit(mem, p, lines[0] + CRLF, Headers(lines[1..]));
      HeadersEnd(mem, p + |lines[0]| + 2, lines[1..]);
    }
  }

  // No delimiter starts from p on and before q, be it a line of its own or the closing one.
  ghost predicate Silent(mem: string, p: nat, q: nat, boundary: string) {
    forall i :: p <= i < q ==> !Eq(mem, i, Delimiter(boundary))
  }

  // Text without a delimiter is passed over.
  lemma {:induction false} PassedOver(mem: string, p: nat, q: nat, end: nat, boundary: string)
    requires p <= q <= end && Silent(mem, p, q, boundary)
    ensures Parse(mem, p, end, boundary) == Parse(mem, q, end, boundary)
    decreases q - p
  {
    hide Parse, Eq;
    if p < q {
      SteppedOver(mem, p, end, boundary);
      PassedOver(mem, p + 1, q, end, boundary);
    }
  }

  lemma NothingBehind(mem: string, p: nat, end: nat, boundary: string)
    requires p >= end || Silent(mem, p, end, boundary)
    ensures Parse(mem, p, end, boundary) == []
  {
    if p < end {
      PassedOver(mem, p, end, end, boundary);
    }
  }

  lemma {:induction false} NoNextBoundary(mem: string, p: nat, end: nat, boundary: string)
    requires Silent(mem, p, end, boundary)
    ensures NextBoundary(mem, p, end, boundary).None?
    decreases end - p
  {
    hide Eq;
    if p < end {
      NoNextBoundary(mem, p + 1, end, boundary);
    }
  }

  // Nothing is delivered behind the closing delimiter.
  lemma ClosingParsed(mem: string, p: nat, end: nat, boundary: string)
    requires Eq(mem, p, Delimiter(boundary) + "--")
    requires p + |Delimiter(boundary)| + 2 <= end && Silent(mem, p + |Delimiter(boundary)| + 2, end, boundary)
    ensures Parse(mem, p, end, boundary) == []
  {
    hide Eq, BehindHeaders, NextBoundary;
    var d := Delimiter(boundary);
    var from := p + |d| + 2;
    EqSplit(mem, p, d, "--");
    Clash(mem, p + |d|, "--", 0, p + |d|, CRLF, 0);
    Clash(mem, p + |d|, "--", 0, p + |d|, "\n", 0);
    assert BoundaryCmp(mem, p, boundary) == Some(|d| + 2);
    var q := BehindHeaders(mem, from, end);
    NoNextBoundary(mem, q, end, boundary);
    NothingBehind(mem, from + 1, end, boundary);
    NothingBehind(mem, q + 1, end, boundary);
  }

  // Wherever it lies in memory, a printed body parses to its parts when no delimiter follows it.
  lemma {:induction false} BodyParsed(mem: string, p: nat, end: nat, boundary: string, parts: seq<Part>)
    requires NoBreaks(boundary) && Eq(mem, p, Printed(parts, boundary))
    requires var behind := p + |Printed(parts, boundary)|; behind <= end && Silent(mem, behind, end, boundary)
    requires forall i :: 0 <= i < |parts| ==> Sound(parts[i], boundary)
    ensures Delivered(mem, Parse(mem, p, end, boundary), parts)
    decreases |parts|
  {
    hide Headers, Parse, Delivered, BoundaryCmp, Eq, Silent;
    if parts == [] {
      ClosingParsed(mem, p, end, boundary);
      NothingDelivered(mem);
    } else {
      var d, headers, content := Delimiter(boundary), Headers(parts[0].headers), parts[0].content;
      DelimiterAhead(mem, p, boundary, parts);
      assert Printed(parts, boundary) + "" == Printed(parts, boundary);
      BodySplit(mem, p, boundary, parts, "");
      var q := p + |d| + 2 + |headers|;
      var next := q + |content| + 2;
      assert Printed(parts[1..], boundary) + "" == Printed(parts[1..], boundary);
      DelimiterAhead(mem, next, boundary, parts[1..]);
      PartParsed(mem, p, end, boundary, parts[0], next);
      EqSplit(mem, q, content, CRLF);
      BodyParsed(mem, next, end, boundary, parts[1..]);
      DeliveredMore(mem, Call(q, |content|), Parse(mem, next, end, boundary), parts);
    }
  }

  // The same with text before it that holds no delimiter.
  lemma BodyFound(mem: string, p: nat, q: nat, end: nat, boundary: string, parts: seq<Part>)
    requires NoBreaks(boundary) && p <= q && Silent(mem, p, q, boundary) && Eq(mem, q, Printed(parts, boundary))
    requires var behind := q + |Printed(parts, boundary)|; behind <= end && Silent(mem, behind, end, boundary)
    requires forall i :: 0 <= i < |parts| ==> Sound(parts[i], boundary)
    ensures Delivered(mem, Parse(mem, p, end, boundary), parts)
  {
    PassedOver(mem, p, q, end, boundary);
    BodyParsed(mem, q, end, boundary, parts);
  }

  lemma NothingDelivered(mem: string)
    ensures Delivered(mem, [], [])
  {
  }

  lemma DeliveredMore(mem: string, c: Call, calls: seq<Call>, parts: seq<Part>)
    requires parts != [] && Delivered(mem, calls, parts[1..])
    requires c.size == |parts[0].content| && Eq(mem, c.start, parts[0].content)
    ensures Delivered(mem, [c] + calls, parts)
  {
    var all := [c] + calls;
    forall i | 0 <= i < |all|
      ensures 0 <= all[i].size && all[i].start + all[i].size <= |mem|
      ensures mem[all[i].start..all[i].start + all[i].size] == parts[i].content
    {
      if i > 0 {
        assert all[i] == calls[i - 1] && parts[i] == parts[1..][i - 1];
      }
    }
  }

  lemma BodySplit(mem: string, p: nat, boundary: string, parts: seq<Part>, epilogue: string)
    requires parts != [] && Eq(mem, p, Printed(parts, boundary) + epilogue)
    ensures var h := p + |Delimiter(boundary)| + 2;
      var q := h + |Headers(parts[0].headers)|;
      && Eq(mem, p, Delimiter(boundary)) && Eq(mem, p + |Delimiter(boundary)|, CRLF)
      && Eq(mem, h, Headers(parts[0].headers)) && Eq(mem, q, parts[0].content + CRLF)
      && Eq(mem, q + |parts[0].content| + 2, Printed(parts[1..], boundary) + epilogue)
      && |Printed(parts, boundary)| == q + |parts[0].content| + 2 - p + |Printed(parts[1..], boundary)|
  {
    hide Headers, Eq;
    var d, headers, content := Delimiter(boundary), Headers(parts[0].headers), parts[0].content;
    var rest := Printed(parts[1..], boundary) + epilogue;
    Regroup(d + CRLF, headers, content, CRLF, Printed(parts[1..], boundary), epilogue);
    EqSplit(mem, p, d + CRLF, headers + ((content + CRLF) + rest));
    EqSplit(mem, p, d, CRLF);
    EqSplit(mem, p + |d + CRLF|, headers, (content + CRLF) + rest);
    EqSplit(mem, p + |d + CRLF| + |headers|, content + CRLF, rest);
  }

  lemma Regroup(a: string, b: string, c: string, d: string, e: string, f: string)
    ensures a + b + c + d + e + f == a + (b + ((c + d) + (e + f)))
  {
    assert a + b + c + d == a + b + (c + d);
    assert a + b + (c + d) + e + f == a + b + ((c + d) + (e + f));
  }

  // A preamble is empty or ends with a line break, and neither it nor an epilogue holds a delimiter.
  ghost predicate MayPrecede(preamble: string, boundary: string) {
    preamble == "" || (|preamble| >= 2 && preamble[|preamble| - 2..] == CRLF && !Occurs(preamble, Delimiter(boundary)))
  }

  lemma PreambleSilent(body: string, preamble: string, boundary: string)
    requires NoBreaks(boundary) && MayPrecede(preamble, boundary) && Eq(body, 0, preamble)
    ensures Silent(body, 0, |preamble|, boundary)
  {
    if preamble != "" {
      var d, text := Delimiter(boundary), preamble[..|preamble| - 2];
      assert preamble == text + CRLF;
      if Occurs(text, d) {
        var i :| 0 <= i <= |text| && Eq(text, i, d);
        assert preamble[i..i + |d|] == text[i..i + |d|];
        assert Eq(preamble, i, d);
      }
      forall i | 0 <= i < |preamble|
        ensures !Eq(body, i, d)
      {
        NoneInside(body, 0, text, boundary, i);
      }
    }
  }

  lemma EpilogueSilent(body: string, p: nat, epilogue: string, boundary: string)
    requires !Occurs(epilogue, Delimiter(boundary)) && p + |epilogue| == |body| && Eq(body, p, epilogue)
    ensures Silent(body, p, |body|, boundary)
  {
    var d := Delimiter(boundary);
    forall i | p <= i < |body|
      ensures !Eq(body, i, d)
    {
      if Eq(body, i, d) {
        EqWithin(body, p, epilogue, i - p, |d|);
        assert Eq(epilogue, i - p, d);
      }
    }
  }

  // The parser on a whole body: the callback is invoked once a part, in order, with its content.
  method ParsePrinted(boundary: string, parts: seq<Part>, preamble: string, epilogue: string) returns (func: Callback)
    requires NoBreaks(boundary) && MayPrecede(preamble, boundary) && !Occurs(epilogue, Delimiter(boundary))
    requires forall i :: 0 <= i < |parts| ==> Sound(parts[i], boundary)
    ensures Delivered(preamble + Printed(parts, boundary) + epilogue, func.calls, parts)
  {
    hide Eq, Occurs, Silent, Delivered, Parse, Printed;
    func := new Callback();
    ghost var printed := Printed(parts, boundary);
    var body := preamble + Printed(parts, boundary) + epilogue;
    FromDataParse(body, |body|, boundary, func);
    EqWhole(body);
    EqSplit(body, 0, preamble + printed, epilogue);
    EqSplit(body, 0, preamble, printed);
    PreambleSilent(body, preamble, boundary);
    EpilogueSilent(body, |preamble| + |printed|, epilogue, boundary);
    BodyFound(body, 0, |preamble|, |body|, boundary, parts);
    assert func.calls == Parse(body, 0, |body|, boundary);
  }

  lemma EqWhole(mem: string)
    ensures Eq(mem, 0, mem)
  {
  }
}
