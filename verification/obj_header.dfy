/**
 * obj2header.c: turns a triangulated Wavefront OBJ mesh into a C header
 * holding one interleaved vertex array. The parsed mesh is an input (the
 * parser is not part of this model) and vertex values are an opaque type
 * `T`; `%f` formatting is a parameter `fmt`.
 */
module ObjHeader {
  import opened Wrappers
  import Numerals
  import CPath

  /** `fastObjIndex`: the position, texture-coordinate and normal index of one corner. */
  datatype Corner = Corner(p: nat, t: nat, n: nat)

  /** The parts of `fastObjMesh` the converter reads. */
  datatype Mesh<T> = Mesh(
    faceCount: nat,
    indices: seq<Corner>,
    positions: seq<T>,
    texcoords: seq<T>,
    normals: seq<T>)

  /** The attribute ranges one corner copies lie inside the attribute arrays. */
  predicate CornerInRange<T>(m: Mesh<T>, c: Corner) {
    && 3 * c.p + 3 <= |m.positions|
    && 3 * c.n + 3 <= |m.normals|
    && 2 * c.t + 2 <= |m.texcoords|
  }

  /** Every face is a triangle and every index it uses is in range. */
  predicate ValidMesh<T>(m: Mesh<T>) {
    && |m.indices| >= 3 * m.faceCount
    && forall i :: 0 <= i < 3 * m.faceCount ==> CornerInRange(m, m.indices[i])
  }

  /** Values per corner: 3 position, 3 normal, 2 texture coordinate. */
  const Stride: nat := 8

  /** The 3 position values of corner `i`: `positions + p * 3`. */
  function Position<T>(m: Mesh<T>, i: nat): (r: seq<T>)
    requires ValidMesh(m) && i < 3 * m.faceCount
    ensures |r| == 3
  {
    var c := m.indices[i];
    assert CornerInRange(m, c);
    m.positions[3 * c.p..3 * c.p + 3]
  }

  /** The 3 normal values of corner `i`: `normals + n * 3`. */
  function Normal<T>(m: Mesh<T>, i: nat): (r: seq<T>)
    requires ValidMesh(m) && i < 3 * m.faceCount
    ensures |r| == 3
  {
    var c := m.indices[i];
    assert CornerInRange(m, c);
    m.normals[3 * c.n..3 * c.n + 3]
  }

  /** The 2 texture-coordinate values of corner `i`: `texcoords + t * 2`. */
  function TexCoord<T>(m: Mesh<T>, i: nat): (r: seq<T>)
    requires ValidMesh(m) && i < 3 * m.faceCount
    ensures |r| == 2
  {
    var c := m.indices[i];
    assert CornerInRange(m, c);
    m.texcoords[2 * c.t..2 * c.t + 2]
  }

  /** The 8 values corner `i` contributes, one `memcpy` per attribute. */
  function Record<T>(m: Mesh<T>, i: nat): (r: seq<T>)
    requires ValidMesh(m) && i < 3 * m.faceCount
    ensures |r| == Stride
  {
    Position(m, i) + Normal(m, i) + TexCoord(m, i)
  }

  /** The records of the first `k` corners, one after the other. */
  function Records<T>(m: Mesh<T>, k: nat): (r: seq<T>)
    requires ValidMesh(m) && k <= 3 * m.faceCount
    ensures |r| == Stride * k
    decreases k
  {
    if k == 0 then [] else Records(m, k - 1) + Record(m, k - 1)
  }

  /** The whole vertex buffer of `face_count * 3 * 8` values. */
  function Interleaved<T>(m: Mesh<T>): (r: seq<T>)
    requires ValidMesh(m)
  {
    Records(m, 3 * m.faceCount)
  }

  /** Record `i` occupies slots [8i, 8i+8) of the buffer, whatever follows it. */
  lemma {:induction false} RecordsSlice<T>(m: Mesh<T>, k: nat, i: nat)
    requires ValidMesh(m) && i < k <= 3 * m.faceCount
    ensures Records(m, k)[Stride * i..Stride * i + Stride] == Record(m, i)
    decreases k
  {
    if i < k - 1 {
      RecordsSlice(m, k - 1, i);
      var a := Records(m, k - 1);
      assert Records(m, k)[Stride * i..Stride * i + Stride] == a[Stride * i..Stride * i + Stride];
    } else {
      assert Records(m, k)[Stride * i..] == Record(m, i);
    }
  }

  /**
   * Slots [8i, 8i+3) of the buffer hold the corner's position, [8i+3, 8i+6)
   * its normal and [8i+6, 8i+8) its texture coordinate.
   */
  lemma InterleavedSlots<T>(m: Mesh<T>, i: nat)
    requires ValidMesh(m) && i < 3 * m.faceCount
    ensures |Interleaved(m)| == Stride * 3 * m.faceCount
    ensures var b := Interleaved(m); var c := m.indices[i];
            && b[8 * i..8 * i + 3] == m.positions[3 * c.p..3 * c.p + 3]
            && b[8 * i + 3..8 * i + 6] == m.normals[3 * c.n..3 * c.n + 3]
            && b[8 * i + 6..8 * i + 8] == m.texcoords[2 * c.t..2 * c.t + 2]
  {
    RecordsSlice(m, 3 * m.faceCount, i);
    var b := Interleaved(m);
    var r := b[8 * i..8 * i + 8];
    assert r == Record(m, i);
    SubSlice(b, 8 * i, 8 * i + 8, 0, 3);
    SubSlice(b, 8 * i, 8 * i + 8, 3, 6);
    SubSlice(b, 8 * i, 8 * i + 8, 6, 8);
  }

  lemma SubSlice<T>(s: seq<T>, lo: nat, hi: nat, x: nat, y: nat)
    requires lo <= hi <= |s| && x <= y <= hi - lo
    ensures s[lo..hi][x..y] == s[lo + x..lo + y]
  {
    forall k | 0 <= k < y - x
      ensures s[lo..hi][x..y][k] == s[lo + x..lo + y][k]
    {
      assert s[lo..hi][x..y][k] == s[lo + x + k];
    }
  }

  /** `memcpy(dst + at, src, |src| * sizeof(T))`, the source range given as its values. */
  method Copy<T>(dst: array<T>, at: nat, src: seq<T>)
    requires at + |src| <= dst.Length
    modifies dst
    ensures CopiedInto(old(dst[..]), dst[..], at, src)
  {
    var k := 0;
    while k < |src|
      invariant 0 <= k <= |src|
      invariant forall q :: at <= q < at + k ==> dst[q] == src[q - at]
      invariant forall j :: 0 <= j < dst.Length && !(at <= j < at + k) ==> dst[j] == old(dst[j])
    {
      dst[at + k] := src[k];
      k := k + 1;
    }
    assert dst[..] == old(dst[..at]) + src + old(dst[at + |src|..]);
  }

  /** A `memcpy` into `before` at `at` leaves everything outside the copied range alone. */
  ghost predicate CopiedInto<T>(before: seq<T>, after: seq<T>, at: nat, piece: seq<T>) {
    at + |piece| <= |before| && after == before[..at] + piece + before[at + |piece|..]
  }

  /** The three copies of one loop pass extend the filled prefix by that corner's record. */
  lemma Pass<T>(m: Mesh<T>, i: nat, a0: seq<T>, a1: seq<T>, a2: seq<T>, a3: seq<T>)
    requires ValidMesh(m) && i < 3 * m.faceCount && Stride * i + Stride <= |a0|
    requires a0[..Stride * i] == Records(m, i)
    requires CopiedInto(a0, a1, Stride * i, Position(m, i))
    requires CopiedInto(a1, a2, Stride * i + 3, Normal(m, i))
    requires CopiedInto(a2, a3, Stride * i + 6, TexCoord(m, i))
    ensures |a3| == |a0| && a3[..Stride * (i + 1)] == Records(m, i + 1)
  {
    ThreeCopies(a0, a1, a2, a3, Stride * i, Position(m, i), Normal(m, i), TexCoord(m, i));
  }

  /** Three copies placed one after the other extend the prefix by all three pieces. */
  lemma ThreeCopies<T>(a0: seq<T>, a1: seq<T>, a2: seq<T>, a3: seq<T>, pos: nat, ps: seq<T>, ns: seq<T>, ts: seq<T>)
    requires CopiedInto(a0, a1, pos, ps)
    requires CopiedInto(a1, a2, pos + |ps|, ns)
    requires CopiedInto(a2, a3, pos + |ps| + |ns|, ts)
    ensures |a3| == |a0| && a3[..pos + |ps| + |ns| + |ts|] == a0[..pos] + (ps + ns + ts)
  {
    CopyExtends(a0, a1, pos, ps);
    CopyExtends(a1, a2, pos + |ps|, ns);
    CopyExtends(a2, a3, pos + |ps| + |ns|, ts);
  }

  /** A copy placed right after a prefix extends that prefix by the copied piece. */
  lemma CopyExtends<T>(before: seq<T>, after: seq<T>, at: nat, piece: seq<T>)
    requires CopiedInto(before, after, at, piece)
    ensures |after| == |before| && after[..at + |piece|] == before[..at] + piece
  {
    assert after[..at + |piece|] == (before[..at] + piece + before[at + |piece|..])[..at + |piece|];
  }

  /**
   * The interleave loop as written: a buffer of `face_count * 3 * 8` slots,
   * filled corner by corner at offset `i * 8` from `p * 3`, `n * 3` and `t * 2`.
   */
  method Interleave<T(0)>(m: Mesh<T>) returns (buffer: seq<T>)
    requires ValidMesh(m)
    ensures |buffer| == m.faceCount * 3 * 8
    ensures buffer == Interleaved(m)
  {
    var sizeOfBuffer := m.faceCount * 3 * 8;
    var a := new T[sizeOfBuffer];
    var i := 0;
    while i < m.faceCount * 3
      invariant 0 <= i <= m.faceCount * 3
      invariant a[..Stride * i] == Records(m, i)
    {
      FillCorner(a, m, i);
      i := i + 1;
    }
    buffer := a[..];
    assert buffer == a[..Stride * i];
  }

  /** One pass of the interleave loop: the three `memcpy` calls for corner `i`. */
  method FillCorner<T>(a: array<T>, m: Mesh<T>, i: nat)
    requires ValidMesh(m) && i < 3 * m.faceCount && a.Length == m.faceCount * 3 * 8
    requires a[..Stride * i] == Records(m, i)
    modifies a
    ensures a[..Stride * (i + 1)] == Records(m, i + 1)
  {
    SlotBound(i, 3 * m.faceCount);
    var pos := i * 8;
    ghost var a0 := a[..];
    Copy(a, pos, Position(m, i));
    ghost var a1 := a[..];
    Copy(a, pos + 3, Normal(m, i));
    ghost var a2 := a[..];
    Copy(a, pos + 6, TexCoord(m, i));
    Pass(m, i, a0, a1, a2, a[..]);
  }

  /** The slots of corner `i` lie inside a buffer of `n` records. */
  lemma SlotBound(i: nat, n: nat)
    requires i < n
    ensures i * 8 == Stride * i && Stride * (i + 1) == Stride * i + Stride <= n * 8
  {
  }

  /** Record `i` of the buffer holds corner `i`'s attributes. */
  lemma InterleavedRecords<T>(m: Mesh<T>)
    requires ValidMesh(m)
    ensures forall i :: 0 <= i < 3 * m.faceCount ==> Interleaved(m)[Stride * i..Stride * i + Stride] == Record(m, i)
  {
    forall k | 0 <= k < 3 * m.faceCount
      ensures Interleaved(m)[Stride * k..Stride * k + Stride] == Record(m, k)
    {
      RecordsSlice(m, 3 * m.faceCount, k);
    }
  }

  // ---------------------------------------------------------------------
  // Printing the buffer
  // ---------------------------------------------------------------------

  /** The `for (i = 0; i < sizeOfBuffer; i += 8)` loop: one row per 8 values. */
  function Rows<T>(buffer: seq<T>): (rows: seq<seq<T>>)
    requires |buffer| % Stride == 0
    ensures |rows| == |buffer| / Stride
    ensures forall r :: r in rows ==> |r| == Stride
    decreases |buffer|
  {
    if buffer == [] then [] else [buffer[..Stride]] + Rows(buffer[Stride..])
  }

  function Flatten<T>(rows: seq<seq<T>>): seq<T>
    decreases |rows|
  {
    if rows == [] then [] else rows[0] + Flatten(rows[1..])
  }

  /** The rows, read in order, are the buffer: every value is printed once, in place. */
  lemma {:induction false} FlattenRows<T>(buffer: seq<T>)
    requires |buffer| % Stride == 0
    ensures Flatten(Rows(buffer)) == buffer
    decreases |buffer|
  {
    if buffer != [] {
      FlattenRows(buffer[Stride..]);
      var rows := Rows(buffer);
      assert rows[1..] == Rows(buffer[Stride..]);
      assert buffer == buffer[..Stride] + buffer[Stride..];
    }
  }

  /** One printed row: `"\n\t%f, %f, %f,\t%f, %f, %f,\t%f, %f,"`. */
  function RowText<T>(row: seq<T>, fmt: T -> string): string
    requires |row| == Stride
  {
    "\n\t" + fmt(row[0]) + ", " + fmt(row[1]) + ", " + fmt(row[2]) + ","
    + "\t" + fmt(row[3]) + ", " + fmt(row[4]) + ", " + fmt(row[5]) + ","
    + "\t" + fmt(row[6]) + ", " + fmt(row[7]) + ","
  }

  function RowsText<T>(rows: seq<seq<T>>, fmt: T -> string): string
    requires forall r :: r in rows ==> |r| == Stride
    decreases |rows|
  {
    if rows == [] then "" else RowText(rows[0], fmt) + RowsText(rows[1..], fmt)
  }

  /** What the header declares, before formatting. */
  datatype Emitted<T> = Emitted(
    name: string,
    arrayLength: nat,
    rows: seq<seq<T>>,
    dataSize: nat,
    faceCountField: nat)

  /** The values `main` prints for a mesh under the identifier `name`. */
  function Emit<T>(name: string, m: Mesh<T>): (e: Emitted<T>)
    requires ValidMesh(m)
    ensures e.arrayLength == e.dataSize == |Interleaved(m)| == m.faceCount * 3 * 8
    ensures e.faceCountField == m.faceCount * 3
    ensures |e.rows| == m.faceCount * 3 && forall r :: r in e.rows ==> |r| == Stride
    ensures Flatten(e.rows) == Interleaved(m)
  {
    var buffer := Interleaved(m);
    BufferRows(m.faceCount);
    FlattenRows(buffer);
    Emitted(name, |buffer|, Rows(buffer), |buffer|, m.faceCount * 3)
  }

  /** A buffer of `f * 3 * 8` values splits into `f * 3` whole rows. */
  lemma BufferRows(f: nat)
    ensures Stride * (3 * f) == f * 3 * 8
    ensures (f * 3 * 8) % Stride == 0 && (f * 3 * 8) / Stride == f * 3
  {
  }

  function Guard(name: string): string {
    "__OBJ__" + name + "__H__"
  }

  /** The header text `main` writes for the emitted values. */
  function Render<T>(e: Emitted<T>, fmt: T -> string): string
    requires forall r :: r in e.rows ==> |r| == Stride
  {
    "// Generated by obj2header.c -- https://github.com/takeiteasy/\n"
    + "\n"
    + "#ifndef " + Guard(e.name) + "\n"
    + "#define " + Guard(e.name) + "\n\n"
    + "static float obj_" + e.name + "_data[" + Numerals.NatToDecimal(e.arrayLength) + "] = {"
    + RowsText(e.rows, fmt)
    + "\n};\nstatic unsigned int obj_" + e.name + "_data_size = " + Numerals.NatToDecimal(e.dataSize) + ";\n"
    + "static unsigned int obj_" + e.name + "_face_count = " + Numerals.NatToDecimal(e.faceCountField) + ";\n"
    + "\n#endif // " + Guard(e.name) + "\n"
  }

  /**
   * `main(argc, argv)`: `args` is argv, `mesh` what `fast_obj_read` returned
   * (`None` when `access` fails or the file cannot be parsed).
   */
  function Convert<T>(args: seq<string>, mesh: Option<Mesh<T>>, fmt: T -> string): (r: Result<CPath.Output, CPath.Failure>)
    requires mesh.Some? ==> ValidMesh(mesh.value)
    ensures r == Err(CPath.Usage) <==> !(|args| == 2 || |args| == 3)
    ensures r.Err? ==> r.error != CPath.NotDirective
  {
    var failed := CPath.Precheck(args, mesh.Some?, "obj");
    if failed.Some? then Err(failed.value)
    else if '/' !in args[1] then Err(CPath.NullName)
    else
      match CPath.FileName(args[1])
      case None => Err(CPath.NullName)
      case Some(stem) =>
        var name := CPath.DotsToUnderscores(stem);
        Ok(CPath.Output(CPath.DestinationOf(args), Render(Emit(name, mesh.value), fmt)))
  }

  /**
   * A header is written only for a usable `.obj*` path with a '/' and a
   * '.' in its last segment, and a mesh that was read; it goes to the
   * chosen destination and renders the interleaved mesh under that name.
   */
  lemma ConvertWrites<T>(args: seq<string>, mesh: Option<Mesh<T>>, fmt: T -> string)
    requires mesh.Some? ==> ValidMesh(mesh.value)
    requires Convert(args, mesh, fmt).Ok?
    ensures |args| == 2 || |args| == 3
    ensures CPath.FileExt(args[1]).Some? && CPath.ExtensionStartsWith(CPath.FileExt(args[1]).value, "obj")
    ensures mesh.Some? && '/' in args[1] && CPath.FileName(args[1]).Some?
    ensures var out := Convert(args, mesh, fmt).value;
            && out.dest == CPath.DestinationOf(args)
            && out.text == Render(Emit(CPath.DotsToUnderscores(CPath.FileName(args[1]).value), mesh.value), fmt)
  {
  }

  /**
   * Conversely: with two or three arguments, an `obj*` extension, a parsed
   * mesh, and a path with a '/' whose last segment holds a '.', the run
   * writes a header.
   */
  lemma ConvertAccepts<T>(args: seq<string>, m: Mesh<T>, fmt: T -> string)
    requires ValidMesh(m)
    requires |args| == 2 || |args| == 3
    requires CPath.FileExt(args[1]).Some? && CPath.ExtensionStartsWith(CPath.FileExt(args[1]).value, "obj")
    requires '/' in args[1] && '.' in CPath.AfterSlashes(args[1])
    ensures Convert(args, Some(m), fmt).Ok?
  {
  }

  /**
   * Every extension that starts with `obj` passes the `strncmp` extension
   * test (obj2header.c:78): `dir/stem.objx` converts.
   */
  lemma AnyObjExtension<T>(dir: string, stem: string, rest: string, m: Mesh<T>, fmt: T -> string)
    requires ValidMesh(m)
    requires |stem| > 0 && '/' !in stem && '/' !in rest && '.' !in rest
    ensures Convert(["obj2header", dir + "/" + stem + ".obj" + rest], Some(m), fmt).Ok?
  {
    var ext := "obj" + rest;
    var path := dir + "/" + stem + ".obj" + rest;
    assert path == dir + "/" + stem + "." + ext;
    CPath.DottedPath(dir, stem, ext);
    CPath.ExtensionPrefixAccepted("obj", ext);
    ConvertAccepts(["obj2header", path], m, fmt);
  }

  /** The declared array length and `data_size` both print the buffer length, 24 per face. */
  lemma DeclaredSizes<T>(name: string, m: Mesh<T>, fmt: T -> string)
    requires ValidMesh(m)
    ensures var e := Emit(name, m);
            && Numerals.DecimalValue(Numerals.NatToDecimal(e.dataSize)) == 24 * m.faceCount
            && Numerals.DecimalValue(Numerals.NatToDecimal(e.arrayLength)) == |Interleaved(m)|
            && Numerals.DecimalValue(Numerals.NatToDecimal(e.faceCountField)) == 3 * m.faceCount
  {
    var e := Emit(name, m);
    Numerals.DecimalRoundTrip(e.dataSize);
    Numerals.DecimalRoundTrip(e.faceCountField);
  }
}
