/** The picture file: `save` writes it, the file constructor reads it.
    Layout: the version string, a NUL byte, the width and the height as
    4-byte little-endian unsigned integers, then r, g, b of every cell in
    row-major order. The reader uses formatted extraction for the version
    string and for the colour components, which skips whitespace bytes
    first, and a raw read for the two sizes. */
module Serial {
  import opened Colors
  import opened Geometry
  import opened Text

  /** The version string "v0.0.0" as bytes. */
  const VersionTag: seq<Byte> := [118, 48, 46, 48, 46, 48]

  /** A decoded picture: its size and its cells, all with code NONE. */
  datatype Picture = Picture(width: nat, height: nat, cells: seq<Color>)

  datatype DecodeError = Truncated | VersionMismatch(found: seq<Byte>)

  datatype Result<T> = Success(value: T) | Failure(error: DecodeError)

  /** A 32-bit unsigned integer as 4 bytes, least significant first. */
  function LE32(n: nat): (r: seq<Byte>)
    requires n < Two32
    ensures |r| == 4
  {
    [n % 256, (n / 256) % 256, (n / 65536) % 256, n / 16777216]
  }

  function ReadLE32(b0: Byte, b1: Byte, b2: Byte, b3: Byte): (r: nat)
    ensures r < Two32
  {
    b0 + 256 * b1 + 65536 * b2 + 16777216 * b3
  }

  lemma LE32RoundTrip(n: nat)
    requires n < Two32
    ensures var b := LE32(n); ReadLE32(b[0], b[1], b[2], b[3]) == n
  {
    var q1 := n / 256;
    var q2 := q1 / 256;
    var q3 := q2 / 256;
    assert n == 256 * q1 + n % 256;
    assert q1 == 256 * q2 + q1 % 256;
    assert q2 == 256 * q3 + q2 % 256;
    assert n / 65536 == q2;
    assert n / 16777216 == q3;
  }

  /** The bytes of the cells' components, three per cell. */
  function Triples(cells: seq<Color>): (r: seq<Byte>)
    ensures |r| == 3 * |cells|
  {
    if cells == [] then [] else [cells[0].r, cells[0].g, cells[0].b] + Triples(cells[1..])
  }

  lemma {:induction false} TriplesSnoc(cells: seq<Color>, c: Color)
    ensures Triples(cells + [c]) == Triples(cells) + [c.r, c.g, c.b]
  {
    if cells == [] {
      assert [c] + [] == [c];
    } else {
      assert (cells + [c])[1..] == cells[1..] + [c];
      TriplesSnoc(cells[1..], c);
    }
  }

  /** What `save` writes for a `width * height` grid. */
  function Encode(width: nat, height: nat, cells: seq<Color>): seq<Byte>
    requires width < Two32 && height < Two32
  {
    VersionTag + [0] + LE32(width) + LE32(height) + Triples(cells)
  }

  /** The bytes `>>` skips before it extracts a character. */
  predicate IsSpace(b: Byte) { (9 <= b <= 13) || b == 32 }

  /** The position of the first non-space byte at or after `pos`. */
  function SkipSpace(data: seq<Byte>, pos: nat): (r: nat)
    requires pos <= |data|
    ensures pos <= r <= |data|
    ensures r < |data| ==> !IsSpace(data[r])
    ensures forall i :: pos <= i < r ==> IsSpace(data[i])
    decreases |data| - pos
  {
    if pos == |data| || !IsSpace(data[pos]) then pos else SkipSpace(data, pos + 1)
  }

  datatype Read = Read(byte: Byte, next: nat)

  /** One formatted extraction of a character; `None` at the end of the data. */
  function ReadChar(data: seq<Byte>, pos: nat): (r: Option<Read>)
    requires pos <= |data|
    ensures r.Some? ==> pos < r.value.next <= |data| && !IsSpace(r.value.byte)
  {
    var q := SkipSpace(data, pos);
    if q == |data| then None else Some(Read(data[q], q + 1))
  }

  /** The version loop of the file constructor: characters up to the NUL,
      which is consumed. Appended to `acc`. */
  function ReadTag(data: seq<Byte>, pos: nat, acc: seq<Byte>): (r: Result<(seq<Byte>, nat)>)
    requires pos <= |data|
    ensures r.Success? ==> r.value.1 <= |data|
    decreases |data| - pos
  {
    match ReadChar(data, pos)
    case None => Failure(Truncated)
    case Some(Read(c, q)) => if c == 0 then Success((acc, q)) else ReadTag(data, q, acc + [c])
  }

  /** The pixel loop: `n` cells, three formatted extractions each. */
  function ReadCells(data: seq<Byte>, pos: nat, n: nat): (r: Result<seq<Color>>)
    requires pos <= |data|
    ensures r.Success? ==> |r.value| == n
    decreases n
  {
    if n == 0 then Success([])
    else match ReadChar(data, pos)
      case None => Failure(Truncated)
      case Some(Read(r, p1)) =>
        match ReadChar(data, p1)
        case None => Failure(Truncated)
        case Some(Read(g, p2)) =>
          match ReadChar(data, p2)
          case None => Failure(Truncated)
          case Some(Read(b, p3)) =>
            match ReadCells(data, p3, n - 1)
            case Failure(e) => Failure(e)
            case Success(rest) => Success([Color(r, g, b, Plain)] + rest)
  }

  /** The file constructor: the version tag is checked before the sizes
      are read; data that ends early is reported as truncated. */
  function Decode(data: seq<Byte>): Result<Picture> {
    var tr := ReadTag(data, 0, []);
    if tr.Failure? then Failure(tr.error)
    else if tr.value.0 != VersionTag then Failure(VersionMismatch(tr.value.0))
    else DecodeSized(data, tr.value.1)
  }

  /** The rest of the file constructor, from just after the NUL at `p`. */
  function DecodeSized(data: seq<Byte>, p: nat): Result<Picture>
    requires p <= |data|
  {
    if |data| < p + 8 then Failure(Truncated)
    else
      var w := ReadLE32(data[p], data[p + 1], data[p + 2], data[p + 3]);
      var h := ReadLE32(data[p + 4], data[p + 5], data[p + 6], data[p + 7]);
      var cr := ReadCells(data, p + 8, Area(w, h));
      if cr.Failure? then Failure(cr.error) else Success(Picture(w, h, cr.value))
  }

  function Area(w: nat, h: nat): nat { w * h }

  /** A component that `>>` would skip cannot be read back. */
  predicate SafeComponents(cells: seq<Color>) {
    forall k :: 0 <= k < |cells| ==> !IsSpace(cells[k].r) && !IsSpace(cells[k].g) && !IsSpace(cells[k].b)
  }

  /** The grid as it is loaded: every code becomes NONE. */
  function Loaded(cells: seq<Color>): (r: seq<Color>)
    ensures |r| == |cells|
  {
    seq(|cells|, k requires 0 <= k < |cells| => cells[k].(code := Plain))
  }

  /** Reading back what `save` wrote gives the same size and the same RGB
      values, as long as no component is a whitespace byte. */
  lemma DecodeEncode(width: nat, height: nat, cells: seq<Color>)
    requires width < Two32 && height < Two32 && |cells| == width * height
    requires SafeComponents(cells)
    ensures Decode(Encode(width, height, cells)) == Success(Picture(width, height, Loaded(cells)))
  {
    var data := Encode(width, height, cells);
    var bw, bh := LE32(width), LE32(height);
    assert data == VersionTag + [0] + bw + bh + Triples(cells);
    ReadTagPlain(data, 0, 6, []);
    assert data[0..6] == VersionTag;
    assert data[6] == 0;
    LE32RoundTrip(width);
    LE32RoundTrip(height);
    assert data[7..11] == bw && data[11..15] == bh;
    assert data[15..] == Triples(cells);
    ReadCellsTriples(data, 15, cells);
  }

  /** The version loop reads `k` non-space, non-NUL bytes followed by a NUL. */
  lemma {:induction false} ReadTagPlain(data: seq<Byte>, pos: nat, k: nat, acc: seq<Byte>)
    requires pos + k < |data| && data[pos + k] == 0
    requires forall i :: pos <= i < pos + k ==> !IsSpace(data[i]) && data[i] != 0
    ensures ReadTag(data, pos, acc) == Success((acc + data[pos..pos + k], pos + k + 1))
    decreases k
  {
    assert SkipSpace(data, pos) == pos;
    if k > 0 {
      ReadTagPlain(data, pos + 1, k - 1, acc + [data[pos]]);
      assert acc + [data[pos]] + data[pos + 1..pos + k] == acc + data[pos..pos + k];
    } else {
      assert acc + data[pos..pos] == acc;
    }
  }

  /** The pixel loop reads back the components of the cells, from `pos` to the end. */
  lemma {:induction false} ReadCellsTriples(data: seq<Byte>, pos: nat, cells: seq<Color>)
    requires pos <= |data| && data[pos..] == Triples(cells) && SafeComponents(cells)
    ensures ReadCells(data, pos, |cells|) == Success(Loaded(cells))
    decreases |cells|
  {
    if cells != [] {
      TriplesRead(data, pos, cells);
      ReadCellsTriples(data, pos + 3, cells[1..]);
      ReadCellsCons(data, pos, cells);
    }
  }

  /** The first cell's three components are read back one character each,
      and the remaining bytes are the triples of the remaining cells. */
  lemma TriplesRead(data: seq<Byte>, pos: nat, cells: seq<Color>)
    requires pos <= |data| && data[pos..] == Triples(cells) && SafeComponents(cells) && cells != []
    ensures pos + 3 <= |data| && data[pos + 3..] == Triples(cells[1..]) && SafeComponents(cells[1..])
    ensures ReadChar(data, pos) == Some(Read(cells[0].r, pos + 1))
    ensures ReadChar(data, pos + 1) == Some(Read(cells[0].g, pos + 2))
    ensures ReadChar(data, pos + 2) == Some(Read(cells[0].b, pos + 3))
  {
    var c := cells[0];
    TriplesHead(data, pos, cells);
    assert !IsSpace(c.r) && !IsSpace(c.g) && !IsSpace(c.b);
    ReadCharAt(data, pos);
    ReadCharAt(data, pos + 1);
    ReadCharAt(data, pos + 2);
    SafeTail(cells);
  }

  lemma LoadedCons(cells: seq<Color>)
    requires cells != []
    ensures Loaded(cells) == [Color(cells[0].r, cells[0].g, cells[0].b, Plain)] + Loaded(cells[1..])
  {
    assert Loaded(cells)[1..] == Loaded(cells[1..]);
  }

  /** The first three bytes of the triples are the first cell's components. */
  lemma TriplesHead(data: seq<Byte>, pos: nat, cells: seq<Color>)
    requires pos <= |data| && data[pos..] == Triples(cells) && cells != []
    ensures pos + 3 <= |data|
    ensures data[pos] == cells[0].r && data[pos + 1] == cells[0].g && data[pos + 2] == cells[0].b
    ensures data[pos + 3..] == Triples(cells[1..])
  {
    var c := cells[0];
    assert Triples(cells) == [c.r, c.g, c.b] + Triples(cells[1..]);
    assert data[pos..][0] == c.r && data[pos..][1] == c.g && data[pos..][2] == c.b;
    assert data[pos + 3..] == data[pos..][3..];
  }

  /** One step of the pixel loop: the first cell's three characters read in
      front of the remaining cells make the loaded cells. */
  lemma ReadCellsCons(data: seq<Byte>, pos: nat, cells: seq<Color>)
    requires cells != [] && pos + 3 <= |data|
    requires ReadChar(data, pos) == Some(Read(cells[0].r, pos + 1))
    requires ReadChar(data, pos + 1) == Some(Read(cells[0].g, pos + 2))
    requires ReadChar(data, pos + 2) == Some(Read(cells[0].b, pos + 3))
    requires ReadCells(data, pos + 3, |cells[1..]|) == Success(Loaded(cells[1..]))
    ensures ReadCells(data, pos, |cells|) == Success(Loaded(cells))
  {
    LoadedCons(cells);
  }

  lemma SafeTail(cells: seq<Color>)
    requires cells != [] && SafeComponents(cells)
    ensures SafeComponents(cells[1..])
  {
    forall k | 0 <= k < |cells[1..]| ensures !IsSpace(cells[1..][k].r) && !IsSpace(cells[1..][k].g) && !IsSpace(cells[1..][k].b) {
      assert cells[1..][k] == cells[k + 1];
    }
  }

  lemma ReadCharAt(data: seq<Byte>, pos: nat)
    requires pos < |data| && !IsSpace(data[pos])
    ensures ReadChar(data, pos) == Some(Read(data[pos], pos + 1))
  {
  }

  /** A component equal to a space (32) is skipped on reading: the saved
      1 x 1 picture with colour (32, 0, 0) does not load back. */
  lemma SpaceComponentLost()
    ensures Decode(Encode(1, 1, [Color(32, 0, 0, Plain)])) == Failure(Truncated)
  {
    var data := Encode(1, 1, [Color(32, 0, 0, Plain)]);
    assert LE32(1) == [1, 0, 0, 0];
    assert Triples([Color(32, 0, 0, Plain)]) == [32, 0, 0];
    assert data == [118, 48, 46, 48, 46, 48, 0, 1, 0, 0, 0, 1, 0, 0, 0, 32, 0, 0];
    SpaceBytesLost(data);
  }

  lemma SpaceBytesLost(data: seq<Byte>)
    requires data == [118, 48, 46, 48, 46, 48, 0, 1, 0, 0, 0, 1, 0, 0, 0, 32, 0, 0]
    ensures Decode(data) == Failure(Truncated)
  {
    assert ReadTag(data, 0, []) == Success((VersionTag, 7)) by {
      ReadTagPlain(data, 0, 6, []);
      assert [] + data[0..6] == VersionTag;
    }
    assert DecodeSized(data, 7) == Failure(Truncated) by {
      assert ReadLE32(data[7], data[8], data[9], data[10]) == 1;
      assert ReadLE32(data[11], data[12], data[13], data[14]) == 1;
      SpaceCellTruncated(data);
    }
  }

  /** The one cell of that file: the space byte is skipped, so the blue
      component is missing. */
  lemma SpaceCellTruncated(data: seq<Byte>)
    requires data == [118, 48, 46, 48, 46, 48, 0, 1, 0, 0, 0, 1, 0, 0, 0, 32, 0, 0]
    ensures ReadCells(data, 15, 1) == Failure(Truncated)
  {
    assert SkipSpace(data, 16) == 16;
    assert SkipSpace(data, 15) == 16;
    assert ReadChar(data, 15) == Some(Read(0, 17));
    ReadCharAt(data, 17);
    assert SkipSpace(data, 18) == 18;
    assert ReadChar(data, 18) == None;
  }

  /** A file whose version string differs is refused whatever follows the
      NUL, so nothing of the rest is read. */
  lemma VersionChecked(tag: seq<Byte>, rest: seq<Byte>)
    requires tag != VersionTag
    requires forall i :: 0 <= i < |tag| ==> !IsSpace(tag[i]) && tag[i] != 0
    ensures Decode(tag + [0] + rest) == Failure(VersionMismatch(tag))
  {
    var data := tag + [0] + rest;
    assert data[|tag|] == 0;
    assert forall i :: 0 <= i < |tag| ==> data[i] == tag[i];
    ReadTagPlain(data, 0, |tag|, []);
    assert data[0..|tag|] == tag;
    assert [] + tag == tag;
  }

  /** Every decoded picture has one cell per position and only code NONE. */
  lemma DecodedPlain(data: seq<Byte>)
    requires Decode(data).Success?
    ensures var pic := Decode(data).value;
      pic.width < Two32 && pic.height < Two32 &&
      |pic.cells| == pic.width * pic.height &&
      forall k :: 0 <= k < |pic.cells| ==> pic.cells[k].code == Plain
  {
    var p := ReadTag(data, 0, []).value.1;
    assert Decode(data) == DecodeSized(data, p);
    DecodedSizedPlain(data, p);
  }

  lemma DecodedSizedPlain(data: seq<Byte>, p: nat)
    requires p <= |data| && DecodeSized(data, p).Success?
    ensures var pic := DecodeSized(data, p).value;
      pic.width < Two32 && pic.height < Two32 &&
      |pic.cells| == pic.width * pic.height &&
      forall k :: 0 <= k < |pic.cells| ==> pic.cells[k].code == Plain
  {
    var w := ReadLE32(data[p], data[p + 1], data[p + 2], data[p + 3]);
    var h := ReadLE32(data[p + 4], data[p + 5], data[p + 6], data[p + 7]);
    var cr := ReadCells(data, p + 8, Area(w, h));
    assert DecodeSized(data, p) == Success(Picture(w, h, cr.value));
    ReadCellsPlain(data, p + 8, Area(w, h));
  }

  /** Every cell has code NONE. */
  predicate AllPlain(cells: seq<Color>) {
    forall k :: 0 <= k < |cells| ==> cells[k].code == Plain
  }

  lemma {:induction false} ReadCellsPlain(data: seq<Byte>, pos: nat, n: nat)
    requires pos <= |data| && ReadCells(data, pos, n).Success?
    ensures AllPlain(ReadCells(data, pos, n).value)
    decreases n
  {
    if n > 0 {
      var r1 := ReadChar(data, pos).value;
      var r2 := ReadChar(data, r1.next).value;
      var r3 := ReadChar(data, r2.next).value;
      var rest := ReadCells(data, r3.next, n - 1).value;
      assert ReadCells(data, pos, n).value == [Color(r1.byte, r2.byte, r3.byte, Plain)] + rest;
      ReadCellsPlain(data, r3.next, n - 1);
      AllPlainCons(Color(r1.byte, r2.byte, r3.byte, Plain), rest);
    }
  }

  lemma AllPlainCons(c: Color, rest: seq<Color>)
    requires c.code == Plain && AllPlain(rest)
    ensures AllPlain([c] + rest)
  {
  }
}
