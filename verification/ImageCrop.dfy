/**
 Cropping and converting 4:2:0 images. A planar image has the planes Y, U and V; an NV12 image has Y
 and one plane in which U and V samples alternate. The routines write through moving cursors; what
 they write is stated plane by plane, and the routes between the two layouts are shown to agree.
 */
module ImageCrop {
  import opened Octets
  import opened Arithmetic

  // ----- Planes -----

  // Where column x of a line lies in a plane of the given stride.
  function Offset(stride: nat, line: nat, x: nat): nat {
    line * stride + x
  }

  // A rectangle of the plane, row by row.
  predicate InPlane(plane: seq<byte>, stride: nat, x: nat, y: nat, w: nat, h: nat) {
    forall line :: y <= line < y + h ==> Offset(stride, line, x) + w <= |plane|
  }

  function Row(plane: seq<byte>, stride: nat, x: nat, line: nat, w: nat): (s: seq<byte>)
    requires Offset(stride, line, x) + w <= |plane|
    ensures |s| == w
  {
    plane[Offset(stride, line, x)..Offset(stride, line, x) + w]
  }

  function Area(w: nat, h: nat): nat {
    w * h
  }

  function Crop(plane: seq<byte>, stride: nat, x: nat, y: nat, w: nat, h: nat): (s: seq<byte>)
    requires InPlane(plane, stride, x, y, w, h)
    ensures |s| == Area(w, h)
  {
    if h == 0 then [] else Crop(plane, stride, x, y, w, h - 1) + Row(plane, stride, x, y + h - 1, w)
  }

  // Pixel by pixel, the crop is the rectangle.
  lemma {:induction false} CropPixel(plane: seq<byte>, stride: nat, x: nat, y: nat, w: nat, h: nat, r: nat, c: nat)
    requires InPlane(plane, stride, x, y, w, h) && r < h && c < w
    ensures Offset(w, r, c) < Area(w, h) && Offset(stride, y + r, x) + c < |plane|
    ensures Crop(plane, stride, x, y, w, h)[Offset(w, r, c)] == plane[Offset(stride, y + r, x) + c]
  {
    RowInArea(w, h, r, c);
    hide Area;
    if r < h - 1 {
      CropPixel(plane, stride, x, y, w, h - 1, r, c);
    } else {
      assert |Crop(plane, stride, x, y, w, h - 1)| == Offset(w, r, 0) by { LastRow(w, r); }
    }
  }

  lemma LastRow(w: nat, r: nat)
    ensures Area(w, r) == Offset(w, r, 0)
  {
  }

  lemma RowInArea(w: nat, h: nat, r: nat, c: nat)
    requires r < h && c < w
    ensures Offset(w, r, c) < Area(w, h) && (r + 1 < h ==> Offset(w, r, c) < Area(w, h - 1))
  {
    ProductMonotonic(w, r + 1, h);
  }

  // Cropping all of a packed plane gives the plane back.
  lemma {:induction false} CropWhole(plane: seq<byte>, w: nat, h: nat)
    requires |plane| >= Area(w, h)
    ensures InPlane(plane, w, 0, 0, w, h) && Crop(plane, w, 0, 0, w, h) == plane[..Area(w, h)]
  {
    hide Area, Offset;
    forall line | 0 <= line < h
      ensures Offset(w, line, 0) + w <= |plane|
    {
      RowEnds(w, line, h);
    }
    if h > 0 {
      RowEnds(w, h - 1, h);
      CropWhole(plane, w, h - 1);
    } else {
      NoArea(w);
    }
  }

  lemma RowEnds(w: nat, line: nat, h: nat)
    requires line < h
    ensures Offset(w, line, 0) + w <= Area(w, h)
    ensures Area(w, line) == Offset(w, line, 0) && Area(w, line + 1) == Area(w, line) + w
  {
    ProductMonotonic(w, line + 1, h);
  }

  lemma NoArea(w: nat)
    ensures Area(w, 0) == 0
  {
  }

  // ----- Alternating samples -----

  function Evens(s: seq<byte>): (e: seq<byte>)
    ensures |e| == |s| / 2
  {
    seq(|s| / 2, i requires 0 <= i < |s| / 2 => s[2 * i])
  }

  function Odds(s: seq<byte>): (o: seq<byte>)
    ensures |o| == |s| / 2
  {
    seq(|s| / 2, i requires 0 <= i < |s| / 2 => s[2 * i + 1])
  }

  function Interleave(u: seq<byte>, v: seq<byte>): (s: seq<byte>)
    requires |u| == |v|
    ensures |s| == 2 * |u|
  {
    seq(2 * |u|, i requires 0 <= i < 2 * |u| => if i % 2 == 0 then u[i / 2] else v[i / 2])
  }

  lemma InterleaveSplits(s: seq<byte>)
    requires |s| % 2 == 0
    ensures |Evens(s)| == |Odds(s)| && Interleave(Evens(s), Odds(s)) == s
  {
  }

  lemma SplitInterleaved(u: seq<byte>, v: seq<byte>)
    requires |u| == |v|
    ensures Evens(Interleave(u, v)) == u && Odds(Interleave(u, v)) == v
  {
  }

  lemma SplitJoin(s: seq<byte>, t: seq<byte>)
    requires |s| % 2 == 0
    ensures Evens(s + t) == Evens(s) + Evens(t) && Odds(s + t) == Odds(s) + Odds(t)
  {
  }

  lemma InterleaveJoin(u: seq<byte>, v: seq<byte>, u2: seq<byte>, v2: seq<byte>)
    requires |u| == |v| && |u2| == |v2|
    ensures Interleave(u + u2, v + v2) == Interleave(u, v) + Interleave(u2, v2)
  {
  }

  // Taking every second sample of a crop is cropping the plane of every second sample.
  lemma {:induction false} SplitCrop(uv: seq<byte>, stride: nat, x: nat, y: nat, w: nat, h: nat)
    requires stride % 2 == 0 && x % 2 == 0 && w % 2 == 0 && InPlane(uv, stride, x, y, w, h)
    ensures InPlane(Evens(uv), stride / 2, x / 2, y, w / 2, h) && InPlane(Odds(uv), stride / 2, x / 2, y, w / 2, h)
    ensures Evens(Crop(uv, stride, x, y, w, h)) == Crop(Evens(uv), stride / 2, x / 2, y, w / 2, h)
    ensures Odds(Crop(uv, stride, x, y, w, h)) == Crop(Odds(uv), stride / 2, x / 2, y, w / 2, h)
  {
    forall line | y <= line < y + h
      ensures Offset(stride / 2, line, x / 2) + w / 2 <= |uv| / 2
    {
      HalfOffset(stride, line, x);
    }
    if h > 0 {
      SplitCrop(uv, stride, x, y, w, h - 1);
      EvenProduct(w, h - 1);
      SplitRow(uv, stride, x, y + h - 1, w);
      SplitJoin(Crop(uv, stride, x, y, w, h - 1), Row(uv, stride, x, y + h - 1, w));
    }
  }

  lemma SplitRow(uv: seq<byte>, stride: nat, x: nat, line: nat, w: nat)
    requires stride % 2 == 0 && x % 2 == 0 && w % 2 == 0 && Offset(stride, line, x) + w <= |uv|
    ensures Offset(stride / 2, line, x / 2) + w / 2 <= |Evens(uv)|
    ensures Evens(Row(uv, stride, x, line, w)) == Row(Evens(uv), stride / 2, x / 2, line, w / 2)
    ensures Odds(Row(uv, stride, x, line, w)) == Row(Odds(uv), stride / 2, x / 2, line, w / 2)
  {
    hide Offset, Evens, Odds;
    HalfOffset(stride, line, x);
    SplitSlice(uv, Offset(stride / 2, line, x / 2), w / 2);
  }

  lemma SplitSlice(s: seq<byte>, o: nat, n: nat)
    requires 2 * o + 2 * n <= |s|
    ensures Evens(s[2 * o..2 * o + 2 * n]) == Evens(s)[o..o + n] && Odds(s[2 * o..2 * o + 2 * n]) == Odds(s)[o..o + n]
  {
    var t := s[2 * o..2 * o + 2 * n];
    forall i | 0 <= i < n
      ensures Evens(t)[i] == Evens(s)[o + i] && Odds(t)[i] == Odds(s)[o + i]
    {
      assert t[2 * i] == s[2 * (o + i)] && t[2 * i + 1] == s[2 * (o + i) + 1];
    }
  }

  lemma HalfOffset(stride: nat, line: nat, x: nat)
    requires stride % 2 == 0 && x % 2 == 0
    ensures Offset(stride / 2, line, x / 2) * 2 == Offset(stride, line, x)
  {
    var s := stride / 2;
    assert line * (2 * s) == 2 * (line * s);
  }

  lemma EvenProduct(w: nat, h: nat)
    requires w % 2 == 0
    ensures Area(w, h) % 2 == 0 && Area(w, h) / 2 == Area(w / 2, h)
  {
    var s := w / 2;
    assert 2 * s * h == 2 * (s * h);
  }

  // ----- Writing through a cursor -----

  // s lies in dst from index at on.
  ghost predicate Filled(dst: array<byte>, at: nat, s: seq<byte>)
    reads dst
  {
    at + |s| <= dst.Length && forall p :: at <= p < at + |s| ==> dst[p] == s[p - at]
  }

  // Write row where the cursor stands; done is what was written through the same cursor before.
  method Append(dst: array<byte>, ghost start: nat, at: nat, ghost done: seq<byte>, row: seq<byte>)
    requires Filled(dst, start, done) && at == start + |done| && at + |row| <= dst.Length
    modifies dst
    ensures Filled(dst, start, done + row)
    ensures forall p :: 0 <= p < dst.Length && !(at <= p < at + |row|) ==> dst[p] == old(dst[p])
  {
    forall i | 0 <= i < |row| {
      dst[at + i] := row[i];
    }
  }

  lemma Quarter(w: nat, h: nat)
    requires w % 2 == 0 && h % 2 == 0
    ensures Area(w, h) / 4 == Area(w / 2, h / 2) && Area(w, h) / 2 == Area(w, h / 2) && Area(w, h) % 4 == 0
  {
    var a, b := w / 2, h / 2;
    assert 2 * a * (2 * b) == 4 * (a * b);
    assert 2 * a * b == 2 * (a * b);
  }

  // ----- The crops -----

  datatype Format = Yuv420p | Yuvj420p | Nv12 | Other

  // A rectangle with even sides and corners.
  predicate Even(x: nat, y: nat, w: nat, h: nat) {
    x % 2 == 0 && y % 2 == 0 && w % 2 == 0 && h % 2 == 0
  }

  // The planar source of a crop: planes and strides.
  datatype Planar = Planar(Y: seq<byte>, U: seq<byte>, V: seq<byte>, sy: nat, su: nat, sv: nat) {
    predicate Covers(x: nat, y: nat, w: nat, h: nat) {
      && InPlane(Y, sy, x, y, w, h)
      && InPlane(U, su, x / 2, y / 2, w / 2, h / 2)
      && InPlane(V, sv, x / 2, y / 2, w / 2, h / 2)
    }

    // The source as the code reads it: for NV12 output it takes the V rows by the U stride.
    function AsRead(format: Format): Planar {
      if format.Nv12? then this.(sv := su) else this
    }
  }

  // The NV12 source of a crop.
  datatype Paired = Paired(Y: seq<byte>, UV: seq<byte>, sy: nat, suv: nat) {
    predicate Covers(x: nat, y: nat, w: nat, h: nat) {
      InPlane(Y, sy, x, y, w, h) && InPlane(UV, suv, x, y / 2, w, h / 2)
    }
  }

  // What the output holds behind its luma plane, given its U and V samples.
  function Chroma(format: Format, u: seq<byte>, v: seq<byte>): seq<byte>
    requires |u| == |v|
  {
    match format
    case Yuv420p | Yuvj420p => u + v
    case Nv12 => Interleave(u, v)
    case Other => []
  }

  // ----- Whole images -----

  function PlanarCropped(src: Planar, format: Format, x: nat, y: nat, w: nat, h: nat): seq<byte>
    requires src.Covers(x, y, w, h)
  {
    Crop(src.Y, src.sy, x, y, w, h) +
    Chroma(format, Crop(src.U, src.su, x / 2, y / 2, w / 2, h / 2),
           Crop(src.V, src.sv, x / 2, y / 2, w / 2, h / 2))
  }

  function PairedCropped(src: Paired, format: Format, x: nat, y: nat, w: nat, h: nat): seq<byte>
    requires src.Covers(x, y, w, h)
  {
    var uv := Crop(src.UV, src.suv, x, y / 2, w, h / 2);
    Crop(src.Y, src.sy, x, y, w, h) + Chroma(format, Evens(uv), Odds(uv))
  }

  // The bytes of an image with w * h pixels.
  function ImageSize(w: nat, h: nat): nat {
    Area(w, h) + Area(w, h) / 2
  }

  // The planes of a packed image: every stride is the width of its plane.
  function PackedNv12(data: seq<byte>, w: nat, h: nat): Paired
    requires ImageSize(w, h) <= |data|
  {
    Paired(data[..Area(w, h)], data[Area(w, h)..ImageSize(w, h)], w, w)
  }

  function PackedPlanar(data: seq<byte>, w: nat, h: nat): Planar
    requires w % 2 == 0 && h % 2 == 0 && ImageSize(w, h) <= |data|
  {
    var area := Area(w, h);
    Planar(data[..area], data[area..area + area / 4], data[area + area / 4..area + 2 * (area / 4)], w, w / 2, w / 2)
  }

  // NV12 made planar.
  function Split(data: seq<byte>, w: nat, h: nat): seq<byte>
    requires ImageSize(w, h) <= |data|
  {
    var uv := data[Area(w, h)..ImageSize(w, h)];
    data[..Area(w, h)] + (Evens(uv) + Odds(uv))
  }

  // ----- Writing chroma -----

  // The chroma cursors of an output whose luma plane takes area bytes.
  datatype Cursors = Cursors(u: nat, v: nat, uv: nat)

  function StartOfChroma(area: nat): Cursors {
    Cursors(area, area + area / 4, area)
  }

  // The planes hold u and v up to their cursors.
  ghost predicate TwoPlanes(dst: array<byte>, area: nat, at: Cursors, u: seq<byte>, v: seq<byte>)
    reads dst
  {
    && |u| <= area / 4 && |v| <= area / 4 && area + 2 * (area / 4) <= dst.Length
    && at.u == area + |u| && at.v == area + area / 4 + |v|
    && Filled(dst, area, u) && Filled(dst, area + area / 4, v)
  }

  // The samples u and v have been written.
  ghost predicate Written(dst: array<byte>, format: Format, area: nat, at: Cursors, u: seq<byte>, v: seq<byte>)
    reads dst
  {
    && |u| == |v| <= area / 4 && area + 2 * (area / 4) <= dst.Length
    && match format
       case Yuv420p | Yuvj420p => TwoPlanes(dst, area, at, u, v)
       case Nv12 => at.uv == area + 2 * |u| && Filled(dst, area, Interleave(u, v))
       case Other => true
  }

  ghost predicate SameOutside(dst: array<byte>, before: seq<byte>, from: nat, to: nat)
    requires |before| == dst.Length
    reads dst
  {
    forall p :: 0 <= p < dst.Length && !(from <= p < to) ==> dst[p] == before[p]
  }

  lemma ImageWhole(dst: array<byte>, format: Format, area: nat, at: Cursors, luma: seq<byte>, u: seq<byte>, v: seq<byte>)
    requires Filled(dst, 0, luma) && |luma| == area && Written(dst, format, area, at, u, v) && |u| == area / 4
    ensures Filled(dst, 0, luma + Chroma(format, u, v))
  {
    hide Interleave;
    assert Filled(dst, area, Chroma(format, u, v));
  }

  lemma NothingWritten(dst: array<byte>, format: Format, area: nat)
    requires area + 2 * (area / 4) <= dst.Length
    ensures Written(dst, format, area, StartOfChroma(area), [], [])
  {
  }

  // Two samples, to the planes or next to each other.
  method PutPair(dst: array<byte>, format: Format, ghost area: nat, at: Cursors, ghost u: seq<byte>, ghost v: seq<byte>,
                 a: byte, b: byte) returns (next: Cursors)
    requires Written(dst, format, area, at, u, v) && |u| < area / 4
    modifies dst
    ensures Written(dst, format, area, next, u + [a], v + [b])
    ensures SameOutside(dst, old(dst[..]), area, area + 2 * (area / 4))
  {
    next := at;
    match format {
      case Yuv420p | Yuvj420p =>
        dst[at.u] := a;
        dst[at.v] := b;
        next := at.(u := at.u + 1, v := at.v + 1);
      case Nv12 =>
        InterleaveJoin(u, v, [a], [b]);
        assert Interleave([a], [b]) == [a, b];
        hide Interleave;
        dst[at.uv] := a;
        dst[at.uv + 1] := b;
        next := at.(uv := at.uv + 2);
      case Other =>
    }
  }

  // A row of the luma plane.
  method PutLuma(dst: array<byte>, format: Format, ghost area: nat, at: Cursors, ghost u: seq<byte>, ghost v: seq<byte>,
                 dstY: nat, ghost luma: seq<byte>, row: seq<byte>)
    requires Written(dst, format, area, at, u, v) && Filled(dst, 0, luma) && dstY == |luma| && dstY + |row| <= area
    modifies dst
    ensures Written(dst, format, area, at, u, v) && Filled(dst, 0, luma + row)
    ensures SameOutside(dst, old(dst[..]), 0, area)
  {
    hide Interleave;
    Append(dst, 0, dstY, luma, row);
  }

  // A row of each of the planes U and V.
  method PutPlanarRow(dst: array<byte>, format: Format, ghost area: nat, at: Cursors, ghost u: seq<byte>, ghost v: seq<byte>,
                      rowU: seq<byte>, rowV: seq<byte>) returns (next: Cursors)
    requires Written(dst, format, area, at, u, v) && |rowU| == |rowV| && |u| + |rowU| <= area / 4
    modifies dst
    ensures Written(dst, format, area, next, u + rowU, v + rowV)
    ensures SameOutside(dst, old(dst[..]), area, area + 2 * (area / 4))
  {
    hide Interleave;
    next := at;
    if format == Yuv420p || format == Yuvj420p {
      Append(dst, area, at.u, u, rowU);
      Append(dst, area + area / 4, at.v, v, rowV);
      next := at.(u := at.u + |rowU|, v := at.v + |rowV|);
    }
    if format == Nv12 {
      assert u + rowU[..0] == u && v + rowV[..0] == v;
      for column := 0 to |rowU|
        invariant Written(dst, format, area, next, u + rowU[..column], v + rowV[..column])
        invariant SameOutside(dst, old(dst[..]), area, area + 2 * (area / 4))
      {
        next := PutPair(dst, format, area, next, u + rowU[..column], v + rowV[..column], rowU[column], rowV[column]);
        assert u + rowU[..column] + [rowU[column]] == u + rowU[..column + 1];
        assert v + rowV[..column] + [rowV[column]] == v + rowV[..column + 1];
      }
      assert rowU[..|rowU|] == rowU && rowV[..|rowU|] == rowV;
    }
  }

  // A row of an NV12 chroma plane; its samples go out as they are or each to its plane.
  method PutPairedRow(dst: array<byte>, format: Format, ghost area: nat, at: Cursors, ghost u: seq<byte>, ghost v: seq<byte>,
                      row: seq<byte>) returns (next: Cursors)
    requires Written(dst, format, area, at, u, v) && |row| % 2 == 0 && |u| + |row| / 2 <= area / 4
    modifies dst
    ensures Written(dst, format, area, next, u + Evens(row), v + Odds(row))
    ensures SameOutside(dst, old(dst[..]), area, area + 2 * (area / 4))
  {
    hide Interleave;
    next := at;
    if format == Nv12 {
      InterleaveJoin(u, v, Evens(row), Odds(row));
      InterleaveSplits(row);
      Append(dst, area, at.uv, Interleave(u, v), row);
      next := at.(uv := at.uv + |row|);
    }
    if format == Yuv420p || format == Yuvj420p {
      next := PutSplitRow(dst, format, area, at, u, v, row);
    }
  }

  method PutSplitRow(dst: array<byte>, format: Format, ghost area: nat, at: Cursors, ghost u: seq<byte>, ghost v: seq<byte>,
                     row: seq<byte>) returns (next: Cursors)
    requires Written(dst, format, area, at, u, v) && |row| % 2 == 0 && |u| + |row| / 2 <= area / 4
    modifies dst
    ensures Written(dst, format, area, next, u + Evens(row), v + Odds(row))
    ensures SameOutside(dst, old(dst[..]), area, area + 2 * (area / 4))
  {
    hide Interleave, Evens, Odds, Written;
    next := at;
    NothingOfRow(row, u, v);
    var i := 0;
    while i < |row|
      invariant 0 <= i <= |row| && i % 2 == 0
      invariant Written(dst, format, area, next, u + Evens(row[..i]), v + Odds(row[..i]))
      invariant SameOutside(dst, old(dst[..]), area, area + 2 * (area / 4))
    {
      PairAt(row, i, u, v);
      next := PutPair(dst, format, area, next, u + Evens(row[..i]), v + Odds(row[..i]), row[i], row[i + 1]);
      i := i + 2;
    }
    assert row[..|row|] == row;
  }

  lemma NothingOfRow(row: seq<byte>, u: seq<byte>, v: seq<byte>)
    ensures u + Evens(row[..0]) == u && v + Odds(row[..0]) == v
  {
  }

  lemma PairAt(row: seq<byte>, i: nat, u: seq<byte>, v: seq<byte>)
    requires i % 2 == 0 && i + 1 < |row|
    ensures |Evens(row[..i])| == i / 2
    ensures u + Evens(row[..i + 2]) == u + Evens(row[..i]) + [row[i]]
    ensures v + Odds(row[..i + 2]) == v + Odds(row[..i]) + [row[i + 1]]
  {
    assert row[..i + 2] == row[..i] + [row[i], row[i + 1]];
    SplitJoin(row[..i], [row[i], row[i + 1]]);
  }

  // The next row of a crop.
  lemma CropStep(plane: seq<byte>, stride: nat, x: nat, y: nat, w: nat, r: nat, h: nat)
    requires InPlane(plane, stride, x, y, w, h) && r < h
    ensures InPlane(plane, stride, x, y, w, r) && InPlane(plane, stride, x, y, w, r + 1)
    ensures Offset(stride, y + r, x) + w <= |plane|
    ensures Crop(plane, stride, x, y, w, r + 1) == Crop(plane, stride, x, y, w, r) + Row(plane, stride, x, y + r, w)
    ensures Area(w, r + 1) == Area(w, r) + w <= Area(w, h)
  {
    ProductMonotonic(w, r + 1, h);
  }

  // The first c rows of the cropped chroma planes have been written.
  ghost predicate PlanarChroma(src: Planar, dst: array<byte>, format: Format, x: nat, y: nat, w: nat, h: nat,
                               c: nat, at: Cursors)
    requires src.Covers(x, y, w, h) && c <= h / 2
    reads dst
  {
    Written(dst, format, Area(w, h), at, Crop(src.U, src.su, x / 2, y / 2, w / 2, c),
      Crop(src.V, src.sv, x / 2, y / 2, w / 2, c))
  }

  method PutPlanarChroma(src: Planar, dst: array<byte>, format: Format, ghost x: nat, ghost y: nat, w: nat, ghost h: nat,
                         ghost c: nat, at: Cursors, rowU: seq<byte>, rowV: seq<byte>) returns (next: Cursors)
    requires Even(x, y, w, h) && src.Covers(x, y, w, h) && c < h / 2
    requires PlanarChroma(src, dst, format, x, y, w, h, c, at)
    requires rowU == Row(src.U, src.su, x / 2, y / 2 + c, w / 2)
    requires rowV == Row(src.V, src.sv, x / 2, y / 2 + c, w / 2)
    modifies dst
    ensures PlanarChroma(src, dst, format, x, y, w, h, c + 1, next)
    ensures SameOutside(dst, old(dst[..]), Area(w, h), Area(w, h) + 2 * (Area(w, h) / 4))
  {
    hide Crop, Row, Offset, Written, Area;
    Quarter(w, h);
    CropStep(src.U, src.su, x / 2, y / 2, w / 2, c, h / 2);
    CropStep(src.V, src.sv, x / 2, y / 2, w / 2, c, h / 2);
    next := PutPlanarRow(dst, format, Area(w, h), at, Crop(src.U, src.su, x / 2, y / 2, w / 2, c),
      Crop(src.V, src.sv, x / 2, y / 2, w / 2, c), rowU, rowV);
  }

  // The first n lines of a crop from planes have been written.
  ghost predicate PlanarLines(src: Planar, dst: array<byte>, format: Format, x: nat, y: nat, w: nat, h: nat,
                              n: nat, dstY: nat, at: Cursors)
    requires h % 2 == 0 && src.Covers(x, y, w, h) && n <= h
    reads dst
  {
    var luma := Crop(src.Y, src.sy, x, y, w, n);
    Filled(dst, 0, luma) && dstY == |luma| && PlanarChroma(src, dst, format, x, y, w, h, (n + 1) / 2, at)
  }

  // What is in the planes when the crop is.
  lemma RowsCovered(src: Planar, x: nat, y: nat, w: nat, h: nat, n: nat, c: nat)
    requires src.Covers(x, y, w, h) && n <= h && c <= h / 2
    ensures
      && InPlane(src.Y, src.sy, x, y, w, n)
      && InPlane(src.U, src.su, x / 2, y / 2, w / 2, c) && InPlane(src.V, src.sv, x / 2, y / 2, w / 2, c)
      && (n < h ==> Offset(src.sy, y + n, x) + w <= |src.Y|)
      && (c < h / 2 ==> Offset(src.su, y / 2 + c, x / 2) + w / 2 <= |src.U|
                        && Offset(src.sv, y / 2 + c, x / 2) + w / 2 <= |src.V|)
  {
  }

  method PutPlanarLine(src: Planar, dst: array<byte>, format: Format, x: nat, y: nat, w: nat, h: nat,
                       line: nat, dstY: nat, at: Cursors) returns (nextY: nat, next: Cursors)
    requires Even(x, y, w, h) && src.Covers(x, y, w, h) && y <= line < y + h
    requires PlanarLines(src, dst, format, x, y, w, h, line - y, dstY, at)
    modifies dst
    ensures PlanarLines(src, dst, format, x, y, w, h, line - y + 1, nextY, next)
    ensures SameOutside(dst, old(dst[..]), 0, Area(w, h) + Area(w, h) / 2)
  {
    hide Written, Crop, Row, Area, Offset, InPlane, Interleave;
    ghost var r, c := line - y, (line - y + 1) / 2;
    RowsCovered(src, x, y, w, h, r, c);
    ghost var luma := Crop(src.Y, src.sy, x, y, w, r);
    ghost var u, v := Crop(src.U, src.su, x / 2, y / 2, w / 2, c), Crop(src.V, src.sv, x / 2, y / 2, w / 2, c);
    CropStep(src.Y, src.sy, x, y, w, r, h);
    assert r % 2 == 0 ==> y / 2 + c == line / 2 && c < h / 2;
    PutLuma(dst, format, Area(w, h), at, u, v, dstY, luma, Row(src.Y, src.sy, x, line, w));
    nextY, next := dstY + w, at;
    if line % 2 == 0 {
      next := PutPlanarChroma(src, dst, format, x, y, w, h, c, at,
        Row(src.U, src.su, x / 2, line / 2, w / 2), Row(src.V, src.sv, x / 2, line / 2, w / 2));
    }
  }

  // The U stride serves for the V plane.
  predicate StrideServes(src: Planar, format: Format, y: nat, w: nat, h: nat) {
    !format.Nv12? || src.su == src.sv || w == 0 || h == 0 || (y == 0 && h <= 2)
  }

  method Yuv420pCrop(src: Planar, dst: array<byte>, format: Format, x: nat, y: nat, w: nat, h: nat)
    requires Even(x, y, w, h) && src.AsRead(format).Covers(x, y, w, h) && ImageSize(w, h) <= dst.Length
    modifies dst
    ensures Filled(dst, 0, PlanarCropped(src.AsRead(format), format, x, y, w, h))
    ensures src.Covers(x, y, w, h) && StrideServes(src, format, y, w, h) ==>
      Filled(dst, 0, PlanarCropped(src, format, x, y, w, h))
    ensures SameOutside(dst, old(dst[..]), 0, ImageSize(w, h))
  {
    CropPlanes(src.AsRead(format), dst, format, x, y, w, h);
    if src.Covers(x, y, w, h) && StrideServes(src, format, y, w, h) {
      CropServed(src, format, x, y, w, h);
    }
  }

  method CropPlanes(src: Planar, dst: array<byte>, format: Format, x: nat, y: nat, w: nat, h: nat)
    requires Even(x, y, w, h) && src.Covers(x, y, w, h) && ImageSize(w, h) <= dst.Length
    modifies dst
    ensures Filled(dst, 0, PlanarCropped(src, format, x, y, w, h))
    ensures SameOutside(dst, old(dst[..]), 0, ImageSize(w, h))
  {
    hide Chroma, Area, Offset, Interleave, Written;
    Quarter(w, h);
    var dstY, at := 0, StartOfChroma(Area(w, h));
    NothingWritten(dst, format, Area(w, h));
    for line := y to y + h
      invariant PlanarLines(src, dst, format, x, y, w, h, line - y, dstY, at)
      invariant SameOutside(dst, old(dst[..]), 0, Area(w, h) + Area(w, h) / 2)
    {
      dstY, at := PutPlanarLine(src, dst, format, x, y, w, h, line, dstY, at);
    }
    ImageWhole(dst, format, Area(w, h), at, Crop(src.Y, src.sy, x, y, w, h), Crop(src.U, src.su, x / 2, y / 2, w / 2, h / 2),
      Crop(src.V, src.sv, x / 2, y / 2, w / 2, h / 2));
  }

  // ----- When the stride of U serves for V -----

  lemma CropServed(src: Planar, format: Format, x: nat, y: nat, w: nat, h: nat)
    requires Even(x, y, w, h) && src.Covers(x, y, w, h) && src.AsRead(format).Covers(x, y, w, h)
    requires StrideServes(src, format, y, w, h)
    ensures PlanarCropped(src.AsRead(format), format, x, y, w, h) == PlanarCropped(src, format, x, y, w, h)
  {
    if format.Nv12? {
      RowsServed(src.V, src.su, src.sv, x / 2, y / 2, w / 2, h / 2);
    }
  }

  lemma RowsServed(plane: seq<byte>, stride: nat, other: nat, x: nat, y: nat, w: nat, h: nat)
    requires InPlane(plane, stride, x, y, w, h) && InPlane(plane, other, x, y, w, h)
    requires stride == other || w == 0 || h == 0 || (y == 0 && h == 1)
    ensures Crop(plane, stride, x, y, w, h) == Crop(plane, other, x, y, w, h)
  {
    if y == 0 && h == 1 {
      assert Offset(stride, 0, x) == Offset(other, 0, x) == x;
      assert Crop(plane, stride, x, y, w, 0) == [] && Crop(plane, other, x, y, w, 0) == [];
    }
  }

  // A plane that tells the two strides apart: one marked sample in a line they reach differently.
  lemma MarkedPlane(stride: nat, other: nat, x: nat, y: nat, w: nat, h: nat) returns (plane: seq<byte>)
    requires stride != other && w > 0 && h > 0 && (y > 0 || h > 1)
    ensures InPlane(plane, stride, x, y, w, h) && InPlane(plane, other, x, y, w, h)
    ensures Crop(plane, stride, x, y, w, h) != Crop(plane, other, x, y, w, h)
  {
    hide Crop, Area, Offset, InPlane;
    var line := if y > 0 then y else 1;
    var longer := if stride < other then other else stride;
    plane := Marked(Offset(longer, y + h, x) + w, Offset(stride, line, x));
    LongEnough(plane, stride, longer, x, y, w, h);
    LongEnough(plane, other, longer, x, y, w, h);
    OffsetsDiffer(stride, other, line, x);
    CropPixel(plane, stride, x, y, w, h, line - y, 0);
    CropPixel(plane, other, x, y, w, h, line - y, 0);
  }

  function Marked(n: nat, k: nat): (s: seq<byte>)
    ensures |s| == n
    ensures forall i :: 0 <= i < n ==> s[i] == if i == k then 1 else 0
  {
    seq(n, i => if i == k then 1 else 0)
  }

  lemma LongEnough(plane: seq<byte>, stride: nat, longer: nat, x: nat, y: nat, w: nat, h: nat)
    requires stride <= longer && |plane| == Offset(longer, y + h, x) + w
    ensures InPlane(plane, stride, x, y, w, h)
  {
    hide Offset;
    forall l | y <= l < y + h
      ensures Offset(stride, l, x) + w <= |plane|
    {
      OffsetGrows(stride, longer, l, y + h, x);
    }
  }

  lemma OffsetGrows(stride: nat, longer: nat, line: nat, last: nat, x: nat)
    requires stride <= longer && line <= last
    ensures Offset(stride, line, x) <= Offset(longer, last, x)
  {
    ProductMonotonic(line, stride, longer);
    ProductMonotonic(longer, line, last);
  }

  lemma OffsetsDiffer(stride: nat, other: nat, line: nat, x: nat)
    requires stride != other && line > 0
    ensures Offset(stride, line, x) != Offset(other, line, x)
  {
    if stride < other {
      ProductMonotonic(line, stride + 1, other);
    } else {
      ProductMonotonic(line, other + 1, stride);
    }
  }

  // The NV12 output is the crop, whatever the V plane holds, exactly when the stride serves.
  lemma StrideServesExactly(src: Planar, x: nat, y: nat, w: nat, h: nat)
    requires Even(x, y, w, h) && InPlane(src.Y, src.sy, x, y, w, h)
    requires InPlane(src.U, src.su, x / 2, y / 2, w / 2, h / 2)
    ensures (forall V :: src.(V := V).Covers(x, y, w, h) && src.(V := V).AsRead(Nv12).Covers(x, y, w, h) ==>
               PlanarCropped(src.(V := V).AsRead(Nv12), Nv12, x, y, w, h) == PlanarCropped(src.(V := V), Nv12, x, y, w, h))
            <==> StrideServes(src, Nv12, y, w, h)
  {
    if StrideServes(src, Nv12, y, w, h) {
      forall V | src.(V := V).Covers(x, y, w, h) && src.(V := V).AsRead(Nv12).Covers(x, y, w, h)
        ensures PlanarCropped(src.(V := V).AsRead(Nv12), Nv12, x, y, w, h) == PlanarCropped(src.(V := V), Nv12, x, y, w, h)
      {
        CropServed(src.(V := V), Nv12, x, y, w, h);
      }
    } else {
      var V := MarkedPlane(src.su, src.sv, x / 2, y / 2, w / 2, h / 2);
      ImagesDiffer(src.(V := V), x, y, w, h);
    }
  }

  lemma ImagesDiffer(src: Planar, x: nat, y: nat, w: nat, h: nat)
    requires src.Covers(x, y, w, h) && src.AsRead(Nv12).Covers(x, y, w, h)
    requires Crop(src.V, src.su, x / 2, y / 2, w / 2, h / 2) != Crop(src.V, src.sv, x / 2, y / 2, w / 2, h / 2)
    ensures PlanarCropped(src.AsRead(Nv12), Nv12, x, y, w, h) != PlanarCropped(src, Nv12, x, y, w, h)
  {
    hide Crop, Area, InPlane, Interleave;
    var luma, u := Crop(src.Y, src.sy, x, y, w, h), Crop(src.U, src.su, x / 2, y / 2, w / 2, h / 2);
    var v, read := Crop(src.V, src.sv, x / 2, y / 2, w / 2, h / 2), Crop(src.V, src.su, x / 2, y / 2, w / 2, h / 2);
    SplitInterleaved(u, v);
    SplitInterleaved(u, read);
    assert (luma + Interleave(u, v))[|luma|..] == Interleave(u, v);
    assert (luma + Interleave(u, read))[|luma|..] == Interleave(u, read);
  }

  // The samples of the first c rows of the cropped chroma plane have been written.
  ghost predicate PairedChroma(src: Paired, dst: array<byte>, format: Format, x: nat, y: nat, w: nat, h: nat,
                               c: nat, at: Cursors)
    requires src.Covers(x, y, w, h) && c <= h / 2
    reads dst
  {
    var uv := Crop(src.UV, src.suv, x, y / 2, w, c);
    Written(dst, format, Area(w, h), at, Evens(uv), Odds(uv))
  }

  lemma PairedStep(uv: seq<byte>, stride: nat, x: nat, y: nat, w: nat, c: nat, h: nat)
    requires w % 2 == 0 && h % 2 == 0 && InPlane(uv, stride, x, y, w, h / 2) && c < h / 2
    ensures InPlane(uv, stride, x, y, w, c) && InPlane(uv, stride, x, y, w, c + 1)
    ensures Offset(stride, y + c, x) + w <= |uv|
    ensures var done, row := Crop(uv, stride, x, y, w, c), Row(uv, stride, x, y + c, w);
      && Evens(Crop(uv, stride, x, y, w, c + 1)) == Evens(done) + Evens(row)
      && Odds(Crop(uv, stride, x, y, w, c + 1)) == Odds(done) + Odds(row)
      && |Evens(done)| + w / 2 <= Area(w, h) / 4
  {
    Quarter(w, h);
    EvenProduct(w, c);
    CropStep(uv, stride, x, y, w, c, h / 2);
    SplitJoin(Crop(uv, stride, x, y, w, c), Row(uv, stride, x, y + c, w));
  }

  // The first n lines of a crop from NV12 have been written.
  ghost predicate PairedLines(src: Paired, dst: array<byte>, format: Format, x: nat, y: nat, w: nat, h: nat,
                              n: nat, dstY: nat, at: Cursors)
    requires h % 2 == 0 && src.Covers(x, y, w, h) && n <= h
    reads dst
  {
    var luma := Crop(src.Y, src.sy, x, y, w, n);
    Filled(dst, 0, luma) && dstY == |luma| && PairedChroma(src, dst, format, x, y, w, h, (n + 1) / 2, at)
  }

  method PutPairedLine(src: Paired, dst: array<byte>, format: Format, x: nat, y: nat, w: nat, h: nat,
                       line: nat, dstY: nat, at: Cursors) returns (nextY: nat, next: Cursors)
    requires Even(x, y, w, h) && src.Covers(x, y, w, h) && y <= line < y + h
    requires PairedLines(src, dst, format, x, y, w, h, line - y, dstY, at)
    modifies dst
    ensures PairedLines(src, dst, format, x, y, w, h, line - y + 1, nextY, next)
    ensures SameOutside(dst, old(dst[..]), 0, Area(w, h) + Area(w, h) / 2)
  {
    hide Written, Crop, Row, Area, Offset, Evens, Odds;
    ghost var r, c := line - y, (line - y + 1) / 2;
    ghost var luma, uv := Crop(src.Y, src.sy, x, y, w, r), Crop(src.UV, src.suv, x, y / 2, w, c);
    CropStep(src.Y, src.sy, x, y, w, r, h);
    assert r % 2 == 0 ==> y / 2 + c == line / 2 && c < h / 2;
    Quarter(w, h);
    PutLuma(dst, format, Area(w, h), at, Evens(uv), Odds(uv), dstY, luma, Row(src.Y, src.sy, x, line, w));
    nextY, next := dstY + w, at;
    if line % 2 == 0 {
      PairedStep(src.UV, src.suv, x, y / 2, w, c, h);
      next := PutPairedRow(dst, format, Area(w, h), at, Evens(uv), Odds(uv), Row(src.UV, src.suv, x, line / 2, w));
    }
  }

  method Nv12Crop(src: Paired, dst: array<byte>, format: Format, x: nat, y: nat, w: nat, h: nat)
    requires Even(x, y, w, h) && src.Covers(x, y, w, h) && ImageSize(w, h) <= dst.Length
    modifies dst
    ensures Filled(dst, 0, PairedCropped(src, format, x, y, w, h))
    ensures SameOutside(dst, old(dst[..]), 0, ImageSize(w, h))
  {
    hide Chroma, Area, Offset, Interleave, Written;
    Quarter(w, h);
    var dstY, at := 0, StartOfChroma(Area(w, h));
    NothingWritten(dst, format, Area(w, h));
    assert Evens([]) == [] && Odds([]) == [];
    for line := y to y + h
      invariant PairedLines(src, dst, format, x, y, w, h, line - y, dstY, at)
      invariant SameOutside(dst, old(dst[..]), 0, Area(w, h) + Area(w, h) / 2)
    {
      dstY, at := PutPairedLine(src, dst, format, x, y, w, h, line, dstY, at);
    }
    ghost var uv := Crop(src.UV, src.suv, x, y / 2, w, h / 2);
    ImageWhole(dst, format, Area(w, h), at, Crop(src.Y, src.sy, x, y, w, h), Evens(uv), Odds(uv));
  }

  // ----- The other routes -----

  // All luma rows, one after the other.
  method PutLumaRows(plane: seq<byte>, stride: nat, dst: array<byte>, x: nat, y: nat, w: nat, h: nat)
    requires InPlane(plane, stride, x, y, w, h) && Area(w, h) <= dst.Length
    modifies dst
    ensures Filled(dst, 0, Crop(plane, stride, x, y, w, h))
    ensures SameOutside(dst, old(dst[..]), 0, Area(w, h))
  {
    hide Area, Offset, Row;
    var dstY := 0;
    for line := y to y + h
      invariant Filled(dst, 0, Crop(plane, stride, x, y, w, line - y))
      invariant dstY == |Crop(plane, stride, x, y, w, line - y)|
      invariant SameOutside(dst, old(dst[..]), 0, Area(w, h))
    {
      CropStep(plane, stride, x, y, w, line - y, h);
      Append(dst, 0, dstY, Crop(plane, stride, x, y, w, line - y), Row(plane, stride, x, line, w));
      dstY := dstY + w;
    }
  }

  // Alternating samples, one at a time: the even ones to the U plane, the odd ones to the V plane.
  method PutByParity(dst: array<byte>, ghost area: nat, at: Cursors, ghost u: seq<byte>, ghost v: seq<byte>,
                     row: seq<byte>) returns (next: Cursors)
    requires Written(dst, Yuv420p, area, at, u, v) && |row| % 2 == 0 && |u| + |row| / 2 <= area / 4
    modifies dst
    ensures Written(dst, Yuv420p, area, next, u + Evens(row), v + Odds(row))
    ensures SameOutside(dst, old(dst[..]), area, area + 2 * (area / 4))
  {
    hide Evens, Odds, TwoPlanes;
    ghost var rowU, rowV := Evens(row), Odds(row);
    ghost var j, k := 0, 0;
    next := at;
    var i := 0;
    assert u + rowU[..0] == u && v + rowV[..0] == v;
    while i < |row|
      invariant i == j + k && k <= j <= k + 1 && j <= |rowU| && k <= |rowV|
      invariant TwoPlanes(dst, area, next, u + rowU[..j], v + rowV[..k])
      invariant SameOutside(dst, old(dst[..]), area, area + 2 * (area / 4))
      decreases |row| - i
    {
      SampleAt(row, j, k);
      next := PutSample(dst, area, next, u + rowU[..j], v + rowV[..k], i % 2 == 0, row[i]);
      if i % 2 == 0 {
        j := j + 1;
        assert u + rowU[..j] == u + rowU[..j - 1] + [row[i]];
      } else {
        k := k + 1;
        assert v + rowV[..k] == v + rowV[..k - 1] + [row[i]];
      }
      i := i + 1;
    }
    assert rowU[..j] == rowU && rowV[..k] == rowV;
  }

  method PutSample(dst: array<byte>, ghost area: nat, at: Cursors, ghost u: seq<byte>, ghost v: seq<byte>,
                   even: bool, a: byte) returns (next: Cursors)
    requires TwoPlanes(dst, area, at, u, v) && (if even then |u| else |v|) < area / 4
    modifies dst
    ensures if even then TwoPlanes(dst, area, next, u + [a], v) else TwoPlanes(dst, area, next, u, v + [a])
    ensures SameOutside(dst, old(dst[..]), area, area + 2 * (area / 4))
  {
    if even {
      dst[at.u] := a;
      next := at.(u := at.u + 1);
    } else {
      dst[at.v] := a;
      next := at.(v := at.v + 1);
    }
  }

  // Which of the two planes sample j + k goes to, and where.
  lemma SampleAt(row: seq<byte>, j: nat, k: nat)
    requires j + k < |row| && |row| % 2 == 0 && k <= j <= k + 1
    ensures (j + k) % 2 == 0 <==> j == k
    ensures if j == k then j < |Evens(row)| && Evens(row)[j] == row[j + k] else k < |Odds(row)| && Odds(row)[k] == row[j + k]
  {
    if j == k {
      assert j + k == 2 * j;
    } else {
      assert j + k == 2 * k + 1;
    }
  }

  lemma PackedCovers(data: seq<byte>, width: nat, height: nat, x: nat, y: nat, w: nat, h: nat)
    requires width % 2 == 0 && height % 2 == 0 && ImageSize(width, height) <= |data|
    requires Even(x, y, w, h) && x + w <= width && y + h <= height
    ensures PackedNv12(data, width, height).Covers(x, y, w, h)
  {
    Quarter(width, height);
    RowsInside(width, height, x, y, w, h);
    RowsInside(width, height / 2, x, y / 2, w, h / 2);
  }

  lemma RowsInside(width: nat, height: nat, x: nat, y: nat, w: nat, h: nat)
    requires x + w <= width && y + h <= height
    ensures forall line :: y <= line < y + h ==> Offset(width, line, x) + w <= Area(width, height)
  {
    forall line | y <= line < y + h
      ensures Offset(width, line, x) + w <= Area(width, height)
    {
      ProductMonotonic(width, line + 1, height);
    }
  }

  method ImageCropNv12To420p(data: seq<byte>, width: nat, height: nat, x: nat, y: nat, dst: array<byte>, w: nat, h: nat)
    requires width % 2 == 0 && height % 2 == 0 && ImageSize(width, height) <= |data|
    requires Even(x, y, w, h) && x + w <= width && y + h <= height && ImageSize(w, h) <= dst.Length
    modifies dst
    ensures PackedNv12(data, width, height).Covers(x, y, w, h)
    ensures Filled(dst, 0, PairedCropped(PackedNv12(data, width, height), Yuv420p, x, y, w, h))
    ensures SameOutside(dst, old(dst[..]), 0, ImageSize(w, h))
  {
    hide Area, Offset, Crop, Row, Interleave, Written;
    PackedCovers(data, width, height, x, y, w, h);
    var src := PackedNv12(data, width, height);
    Quarter(w, h);
    PutLumaRows(src.Y, src.sy, dst, x, y, w, h);
    var at := StartOfChroma(Area(w, h));
    NoChromaYet(src, dst, x, y, w, h);
    for line := y / 2 to h / 2 + y / 2
      invariant PairedChroma(src, dst, Yuv420p, x, y, w, h, line - y / 2, at)
      invariant Filled(dst, 0, Crop(src.Y, src.sy, x, y, w, h))
      invariant SameOutside(dst, old(dst[..]), 0, ImageSize(w, h))
    {
      at := PutSplitChroma(src, dst, x, y, w, h, line - y / 2, at, Row(src.UV, src.suv, x, line, w));
    }
    ghost var uv := Crop(src.UV, src.suv, x, y / 2, w, h / 2);
    ImageWhole(dst, Yuv420p, Area(w, h), at, Crop(src.Y, src.sy, x, y, w, h), Evens(uv), Odds(uv));
  }

  lemma NoChromaYet(src: Paired, dst: array<byte>, x: nat, y: nat, w: nat, h: nat)
    requires src.Covers(x, y, w, h) && ImageSize(w, h) <= dst.Length && Area(w, h) % 4 == 0
    ensures PairedChroma(src, dst, Yuv420p, x, y, w, h, 0, StartOfChroma(Area(w, h)))
  {
    hide Written, Area;
    NothingWritten(dst, Yuv420p, Area(w, h));
    assert Crop(src.UV, src.suv, x, y / 2, w, 0) == [];
    assert Evens([]) == [] && Odds([]) == [];
  }

  method PutSplitChroma(src: Paired, dst: array<byte>, ghost x: nat, ghost y: nat, w: nat, ghost h: nat,
                        ghost c: nat, at: Cursors, row: seq<byte>) returns (next: Cursors)
    requires Even(x, y, w, h) && src.Covers(x, y, w, h) && c < h / 2
    requires PairedChroma(src, dst, Yuv420p, x, y, w, h, c, at)
    requires row == Row(src.UV, src.suv, x, y / 2 + c, w)
    modifies dst
    ensures PairedChroma(src, dst, Yuv420p, x, y, w, h, c + 1, next)
    ensures SameOutside(dst, old(dst[..]), Area(w, h), Area(w, h) + 2 * (Area(w, h) / 4))
  {
    hide Written, Crop, Row, Area, Offset, Evens, Odds, SameOutside;
    ghost var uv := Crop(src.UV, src.suv, x, y / 2, w, c);
    PairedStep(src.UV, src.suv, x, y / 2, w, c, h);
    next := PutByParity(dst, Area(w, h), at, Evens(uv), Odds(uv), row);
  }

  method Nv12ToYuv420p(src: seq<byte>, dst: array<byte>, w: nat, h: nat)
    requires w % 2 == 0 && h % 2 == 0 && ImageSize(w, h) <= |src| && ImageSize(w, h) <= dst.Length
    modifies dst
    ensures Filled(dst, 0, Split(src, w, h))
    ensures SameOutside(dst, old(dst[..]), 0, ImageSize(w, h))
  {
    hide Evens, Odds, Area, Interleave;
    Quarter(w, h);
    Append(dst, 0, 0, [], src[..ImageSize(w, h)]);
    var area := Area(w, h);
    var uv := src[area..ImageSize(w, h)];
    NothingWritten(dst, Yuv420p, area);
    var at := PutByParity(dst, area, StartOfChroma(area), [], [], uv);
    assert [] + Evens(uv) == Evens(uv) && [] + Odds(uv) == Odds(uv);
    ImageWhole(dst, Yuv420p, area, at, src[..area], Evens(uv), Odds(uv));
  }

  method Yuv420pFrameToNv12Data(frame: Planar, dst: array<byte>, w: nat, h: nat)
    requires w % 2 == 0 && h % 2 == 0 && frame.Covers(0, 0, w, h) && ImageSize(w, h) <= dst.Length
    modifies dst
    ensures Filled(dst, 0, Joined(frame, w, h))
    ensures SameOutside(dst, old(dst[..]), 0, ImageSize(w, h))
  {
    hide Area, Offset, Interleave, Row;
    Quarter(w, h);
    PutLumaRows(frame.Y, frame.sy, dst, 0, 0, w, h);
    var area := Area(w, h);
    var at := StartOfChroma(area);
    NothingWritten(dst, Nv12, area);
    for line := 0 to h / 2
      invariant Written(dst, Nv12, area, at, Crop(frame.U, frame.su, 0, 0, w / 2, line), Crop(frame.V, frame.sv, 0, 0, w / 2, line))
      invariant Filled(dst, 0, Crop(frame.Y, frame.sy, 0, 0, w, h))
      invariant SameOutside(dst, old(dst[..]), 0, ImageSize(w, h))
    {
      CropStep(frame.U, frame.su, 0, 0, w / 2, line, h / 2);
      CropStep(frame.V, frame.sv, 0, 0, w / 2, line, h / 2);
      at := PutPlanarRow(dst, Nv12, area, at, Crop(frame.U, frame.su, 0, 0, w / 2, line),
        Crop(frame.V, frame.sv, 0, 0, w / 2, line),
        Row(frame.U, frame.su, 0, line, w / 2), Row(frame.V, frame.sv, 0, line, w / 2));
    }
    ImageWhole(dst, Nv12, area, at, Crop(frame.Y, frame.sy, 0, 0, w, h), Crop(frame.U, frame.su, 0, 0, w / 2, h / 2), Crop(frame.V, frame.sv, 0, 0, w / 2, h / 2));
  }

  // A planar frame made NV12.
  function Joined(frame: Planar, w: nat, h: nat): seq<byte>
    requires frame.Covers(0, 0, w, h)
  {
    Crop(frame.Y, frame.sy, 0, 0, w, h) +
    Interleave(Crop(frame.U, frame.su, 0, 0, w / 2, h / 2), Crop(frame.V, frame.sv, 0, 0, w / 2, h / 2))
  }

  // ----- Single chroma samples of an NV12 crop -----

  lemma PairedSample(src: Paired, x: nat, y: nat, w: nat, h: nat, r: nat, c: nat)
    requires Even(x, y, w, h) && src.Covers(x, y, w, h) && r < h / 2 && c < w
    ensures var (at, from) := (Area(w, h) + Offset(w, r, c), Offset(src.suv, y / 2 + r, x) + c);
            var cropped := PairedCropped(src, Nv12, x, y, w, h);
            at < |cropped| && from < |src.UV| && cropped[at] == src.UV[from]
  {
    hide Crop, Offset, Area, InPlane, Interleave, Evens, Odds;
    var uv := Crop(src.UV, src.suv, x, y / 2, w, h / 2);
    EvenProduct(w, h / 2);
    InterleaveSplits(uv);
    CropPixel(src.UV, src.suv, x, y / 2, w, h / 2, r, c);
  }

  // U comes from the even samples of a line and V from the odd ones.
  lemma SplitSample(src: Paired, x: nat, y: nat, w: nat, h: nat, r: nat, c: nat)
    requires Even(x, y, w, h) && src.Covers(x, y, w, h) && r < h / 2 && c < w / 2
    ensures var (at, from) := (Area(w, h) + Offset(w / 2, r, c), Offset(src.suv, y / 2 + r, x) + 2 * c);
            var cropped := PairedCropped(src, Yuv420p, x, y, w, h);
            && at + Area(w, h) / 4 < |cropped| && from + 1 < |src.UV|
            && cropped[at] == src.UV[from] && cropped[at + Area(w, h) / 4] == src.UV[from + 1]
  {
    hide Crop, Offset, Area, InPlane, Evens, Odds;
    var uv := Crop(src.UV, src.suv, x, y / 2, w, h / 2);
    Quarter(w, h);
    EvenProduct(w, h / 2);
    RowInArea(w / 2, h / 2, r, c);
    SplitAt(uv, w, r, c);
    CropPixel(src.UV, src.suv, x, y / 2, w, h / 2, r, 2 * c);
    CropPixel(src.UV, src.suv, x, y / 2, w, h / 2, r, 2 * c + 1);
  }

  lemma SplitAt(uv: seq<byte>, w: nat, r: nat, c: nat)
    requires w % 2 == 0 && c < w / 2 && Offset(w / 2, r, c) < |uv| / 2
    ensures Offset(w, r, 2 * c + 1) < |uv|
    ensures Evens(uv)[Offset(w / 2, r, c)] == uv[Offset(w, r, 2 * c)]
    ensures Odds(uv)[Offset(w / 2, r, c)] == uv[Offset(w, r, 2 * c + 1)]
  {
    HalfOffset(w, r, 2 * c);
  }

  // ----- The routes agree -----

  // Cropping straight to planes is cropping as NV12 and making the result planar.
  lemma CropThenSplit(src: Paired, x: nat, y: nat, w: nat, h: nat)
    requires Even(x, y, w, h) && src.Covers(x, y, w, h)
    ensures |PairedCropped(src, Nv12, x, y, w, h)| == ImageSize(w, h)
    ensures Split(PairedCropped(src, Nv12, x, y, w, h), w, h) == PairedCropped(src, Yuv420p, x, y, w, h)
  {
    var luma, uv := Crop(src.Y, src.sy, x, y, w, h), Crop(src.UV, src.suv, x, y / 2, w, h / 2);
    Quarter(w, h);
    EvenProduct(w, h / 2);
    InterleaveSplits(uv);
    var image := PairedCropped(src, Nv12, x, y, w, h);
    assert image == luma + uv;
    assert image[..Area(w, h)] == luma && image[Area(w, h)..ImageSize(w, h)] == uv;
  }

  // Making a packed source planar and cropping the planes gives the same, in either layout.
  lemma CropAfterSplit(data: seq<byte>, width: nat, height: nat, format: Format, x: nat, y: nat, w: nat, h: nat)
    requires width % 2 == 0 && height % 2 == 0 && ImageSize(width, height) <= |data|
    requires Even(x, y, w, h) && x + w <= width && y + h <= height
    ensures |Split(data, width, height)| == ImageSize(width, height)
    ensures PackedPlanar(Split(data, width, height), width, height).Covers(x, y, w, h)
    ensures PackedNv12(data, width, height).Covers(x, y, w, h)
    ensures PlanarCropped(PackedPlanar(Split(data, width, height), width, height), format, x, y, w, h)
      == PairedCropped(PackedNv12(data, width, height), format, x, y, w, h)
  {
    PackedCovers(data, width, height, x, y, w, h);
    SplitPlanes(data, width, height);
    SplitCrop(data[Area(width, height)..ImageSize(width, height)], width, x, y / 2, w, h / 2);
  }

  // The planes of an NV12 image made planar.
  lemma SplitPlanes(data: seq<byte>, w: nat, h: nat)
    requires w % 2 == 0 && h % 2 == 0 && ImageSize(w, h) <= |data|
    ensures |Split(data, w, h)| == ImageSize(w, h)
    ensures var uv := data[Area(w, h)..ImageSize(w, h)];
      PackedPlanar(Split(data, w, h), w, h) == Planar(data[..Area(w, h)], Evens(uv), Odds(uv), w, w / 2, w / 2)
  {
    hide Evens, Odds, Area;
    Quarter(w, h);
  }

  // Making an NV12 image planar and joining the planes again restores it.
  lemma JoinUndoesSplit(data: seq<byte>, w: nat, h: nat)
    requires w % 2 == 0 && h % 2 == 0 && ImageSize(w, h) <= |data|
    ensures |Split(data, w, h)| == ImageSize(w, h)
    ensures PackedPlanar(Split(data, w, h), w, h).Covers(0, 0, w, h)
    ensures Joined(PackedPlanar(Split(data, w, h), w, h), w, h) == data[..ImageSize(w, h)]
  {
    hide Evens, Odds, Area, Interleave;
    var uv := data[Area(w, h)..ImageSize(w, h)];
    SplitPlanes(data, w, h);
    Quarter(w, h);
    JoinPlanes(data[..Area(w, h)], Evens(uv), Odds(uv), w, h);
    InterleaveSplits(uv);
  }

  lemma JoinPlanes(y: seq<byte>, u: seq<byte>, v: seq<byte>, w: nat, h: nat)
    requires |y| == Area(w, h) && |u| == Area(w / 2, h / 2) && |v| == Area(w / 2, h / 2)
    ensures var p := Planar(y, u, v, w, w / 2, w / 2);
      p.Covers(0, 0, w, h) && Joined(p, w, h) == y + Interleave(u, v)
  {
    hide Interleave, Area;
    CropWhole(y, w, h);
    CropWhole(u, w / 2, h / 2);
    CropWhole(v, w / 2, h / 2);
    assert y[..Area(w, h)] == y && u[..Area(w / 2, h / 2)] == u && v[..Area(w / 2, h / 2)] == v;
  }

  // And the other way round: a packed planar image joined and made planar again is itself.
  lemma SplitUndoesJoin(data: seq<byte>, w: nat, h: nat)
    requires w % 2 == 0 && h % 2 == 0 && |data| == ImageSize(w, h)
    ensures PackedPlanar(data, w, h).Covers(0, 0, w, h)
    ensures |Joined(PackedPlanar(data, w, h), w, h)| == ImageSize(w, h)
    ensures Split(Joined(PackedPlanar(data, w, h), w, h), w, h) == data
  {
    hide Evens, Odds, Area, Interleave;
    var p := PackedPlanar(data, w, h);
    Quarter(w, h);
    JoinPlanes(p.Y, p.U, p.V, w, h);
    SplitInterleaved(p.U, p.V);
    var image := p.Y + Interleave(p.U, p.V);
    assert image[..Area(w, h)] == p.Y && image[Area(w, h)..ImageSize(w, h)] == Interleave(p.U, p.V);
    assert p.Y + (p.U + p.V) == data;
  }
}
