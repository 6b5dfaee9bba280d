/** The store-only ZIP layout (APPNOTE.TXT, sections 4.3.7, 4.3.12 and 4.3.16) as a reader sees it: records
    of little-endian fields, found from the end of the file. */
module ZipFormat {
  import opened Options
  import opened Ints
  import opened Bytes
  import opened CrcPolynomial

  // Records of little-endian fields ------------------------------------------------------------------------

  /** x in n bytes, least significant first, truncated as a cast to n bytes truncates */
  function LittleEndian(x: nat, n: nat): (b: seq<byte>)
    ensures |b| == n
  {
    if n == 0 then [] else [x % 0x100] + LittleEndian(x / 0x100, n - 1)
  }

  lemma {:induction false} LittleEndianValue(x: nat, n: nat)
    requires x < Pow2(8 * n)
    ensures Nat(LittleEndian(x, n)) == x
  {
    if n > 0 {
      BytePower(n - 1);
      LittleEndianValue(x / 0x100, n - 1);
      assert LittleEndian(x, n)[1..] == LittleEndian(x / 0x100, n - 1);
    }
  }

  datatype Field = Field(value: nat, width: nat)

  function Layout(fs: seq<Field>): seq<byte> {
    if fs == [] then [] else LittleEndian(fs[0].value, fs[0].width) + Layout(fs[1..])
  }

  /** Where field i begins */
  function Offset(fs: seq<Field>, i: nat): nat
    requires i <= |fs|
  {
    if i == 0 then 0 else fs[0].width + Offset(fs[1..], i - 1)
  }

  lemma {:induction false} FieldAt(fs: seq<Field>, i: nat)
    requires i < |fs|
    ensures Offset(fs, i) + fs[i].width <= |Layout(fs)|
    ensures Layout(fs)[Offset(fs, i)..Offset(fs, i) + fs[i].width] == LittleEndian(fs[i].value, fs[i].width)
  {
    var l, w := Layout(fs), fs[0].width;
    if i == 0 {
      assert l[..w] == LittleEndian(fs[0].value, w);
    } else {
      FieldAt(fs[1..], i - 1);
      var o := Offset(fs, i);
      assert l[o..o + fs[i].width] == Layout(fs[1..])[o - w..o - w + fs[i].width];
    }
  }

  lemma {:induction false} LayoutSize(fs: seq<Field>)
    ensures |Layout(fs)| == Offset(fs, |fs|)
  {
    if fs != [] { LayoutSize(fs[1..]); }
  }

  // The three records --------------------------------------------------------------------------------------

  const LOCAL_SIGNATURE: nat := 0x04034b50
  const CENTRAL_SIGNATURE: nat := 0x02014b50
  const END_SIGNATURE: nat := 0x06054b50

  function LocalFields(crc: nat, size: nat, nameLength: nat): seq<Field> {
    [Field(LOCAL_SIGNATURE, 4), Field(20, 2), Field(0, 2), Field(0, 2), Field(0, 2), Field(0, 2),
     Field(crc, 4), Field(size, 4), Field(size, 4), Field(nameLength, 2), Field(0, 2)]
  }

  function CentralFields(crc: nat, size: nat, nameLength: nat, offset: nat): seq<Field> {
    [Field(CENTRAL_SIGNATURE, 4), Field(20, 2), Field(20, 2), Field(0, 2), Field(0, 2), Field(0, 2), Field(0, 2),
     Field(crc, 4), Field(size, 4), Field(size, 4), Field(nameLength, 2), Field(0, 2), Field(0, 2), Field(0, 2),
     Field(0, 2), Field(0, 4), Field(offset, 4)]
  }

  function EndFields(count: nat, size: nat, offset: nat): seq<Field> {
    [Field(END_SIGNATURE, 4), Field(0, 2), Field(0, 2), Field(count, 2), Field(count, 2), Field(size, 4),
      Field(offset, 4), Field(0, 2)]
  }

  /** Where the fields of the records stand, and how long the records are */
  lemma LocalSize(crc: nat, size: nat, nameLength: nat)
    ensures var fs := LocalFields(crc, size, nameLength);
      && Offset(fs, 0) == 0 && Offset(fs, 1) == 4 && Offset(fs, 2) == 6 && Offset(fs, 3) == 8 && Offset(fs, 4) == 10
      && Offset(fs, 5) == 12 && Offset(fs, 6) == 14 && Offset(fs, 7) == 18 && Offset(fs, 8) == 22
      && Offset(fs, 9) == 26 && Offset(fs, 10) == 28 && |Layout(fs)| == 30
  {
    var fs := LocalFields(crc, size, nameLength);
    LayoutSize(fs);
    hide Layout, Offset;
    OffsetStart(fs);
    OffsetStep(fs, 0); OffsetStep(fs, 1); OffsetStep(fs, 2); OffsetStep(fs, 3); OffsetStep(fs, 4); OffsetStep(fs, 5);
    OffsetStep(fs, 6); OffsetStep(fs, 7); OffsetStep(fs, 8); OffsetStep(fs, 9); OffsetStep(fs, 10);
  }

  lemma CentralSize(crc: nat, size: nat, nameLength: nat, offset: nat)
    ensures var fs := CentralFields(crc, size, nameLength, offset);
      && Offset(fs, 0) == 0 && Offset(fs, 1) == 4 && Offset(fs, 2) == 6 && Offset(fs, 3) == 8 && Offset(fs, 4) == 10
      && Offset(fs, 5) == 12 && Offset(fs, 6) == 14 && Offset(fs, 7) == 16 && Offset(fs, 8) == 20 && Offset(fs, 9) == 24
      && Offset(fs, 10) == 28 && Offset(fs, 11) == 30 && Offset(fs, 12) == 32 && Offset(fs, 13) == 34
      && Offset(fs, 14) == 36 && Offset(fs, 15) == 38 && Offset(fs, 16) == 42
      && |Layout(fs)| == 46
  {
    var fs := CentralFields(crc, size, nameLength, offset);
    LayoutSize(fs);
    hide Layout, Offset;
    OffsetStart(fs);
    OffsetStep(fs, 0); OffsetStep(fs, 1); OffsetStep(fs, 2); OffsetStep(fs, 3); OffsetStep(fs, 4); OffsetStep(fs, 5);
    OffsetStep(fs, 6); OffsetStep(fs, 7); OffsetStep(fs, 8); OffsetStep(fs, 9); OffsetStep(fs, 10); OffsetStep(fs, 11);
    OffsetStep(fs, 12); OffsetStep(fs, 13); OffsetStep(fs, 14); OffsetStep(fs, 15); OffsetStep(fs, 16);
  }

  lemma EndSize(count: nat, size: nat, offset: nat)
    ensures var fs := EndFields(count, size, offset);
      && Offset(fs, 0) == 0 && Offset(fs, 1) == 4 && Offset(fs, 2) == 6 && Offset(fs, 3) == 8 && Offset(fs, 4) == 10
      && Offset(fs, 5) == 12 && Offset(fs, 6) == 16 && Offset(fs, 7) == 20 && |Layout(fs)| == 22
  {
    var fs := EndFields(count, size, offset);
    LayoutSize(fs);
    hide Layout, Offset;
    OffsetStart(fs);
    OffsetStep(fs, 0); OffsetStep(fs, 1); OffsetStep(fs, 2); OffsetStep(fs, 3); OffsetStep(fs, 4); OffsetStep(fs, 5);
    OffsetStep(fs, 6); OffsetStep(fs, 7);
  }

  lemma OffsetStart(fs: seq<Field>)
    ensures Offset(fs, 0) == 0
  {
  }

  lemma {:induction false} OffsetStep(fs: seq<Field>, i: nat)
    requires i < |fs|
    ensures Offset(fs, i + 1) == Offset(fs, i) + fs[i].width
  {
    if i > 0 { OffsetStep(fs[1..], i - 1); }
  }

  // A reader -------------------------------------------------------------------------------------------------

  /** A file as an archive holds it */
  datatype File = File(name: seq<byte>, bytes: seq<byte>, crc: int)

  /** The number in the n bytes of z from a position on, if z has them */
  function Number(z: seq<byte>, at: nat, n: nat): int {
    if at + n <= |z| then Nat(z[at..at + n]) else -1
  }

  /** The version that a record asks of its reader: at most 2.0 */
  predicate Readable(version: int) {
    0 <= version <= 20
  }

  /** A file from its central record at a position, and the position of the next record */
  ghost function ReadCentral(z: seq<byte>, at: nat): Option<(File, nat)> {
    var nameLength, extra, comment := Number(z, at + 28, 2), Number(z, at + 30, 2), Number(z, at + 32, 2);
    var crc, size, offset := Number(z, at + 16, 4), Number(z, at + 20, 4), Number(z, at + 42, 4);
    var version, flags, compression, disk := Number(z, at + 6, 2), Number(z, at + 8, 2), Number(z, at + 10, 2),
      Number(z, at + 34, 2);
    if Number(z, at, 4) != 0x0201_4b50 || !Readable(version) || flags != 0 || compression != 0 || disk != 0
      || Number(z, at + 24, 4) != size then None
    else if nameLength < 0 || extra < 0 || comment < 0 || size < 0 || offset < 0 || at + 46 + nameLength > |z| then None
    else
      var name := z[at + 46..at + 46 + nameLength];
      var bytes := ReadLocal(z, offset, name, crc, size);
      if bytes.None? then None
      else Some((File(name, bytes.value, crc), at + 46 + nameLength + extra + comment))
  }

  /** The bytes of a file from its local record, which has to agree with the central one. The file is neither
      encrypted nor compressed, and its checksum is that of the bytes. */
  ghost function ReadLocal(z: seq<byte>, at: nat, name: seq<byte>, crc: int, size: nat): Option<seq<byte>> {
    var nameLength, extra := Number(z, at + 26, 2), Number(z, at + 28, 2);
    var version, flags, compression := Number(z, at + 4, 2), Number(z, at + 6, 2), Number(z, at + 8, 2);
    if Number(z, at, 4) != 0x0403_4b50 || !Readable(version) || flags != 0 || compression != 0 then None
    else if Number(z, at + 14, 4) != crc || Number(z, at + 18, 4) != size || Number(z, at + 22, 4) != size
      || nameLength < 0 || extra < 0 then None
    else
      var data := at + 30 + nameLength + extra;
      if data + size > |z| || z[at + 30..at + 30 + nameLength] != name then None
      else if !IsChecksum(z[data..data + size], crc) then None
      else Some(z[data..data + size])
  }

  ghost function ReadDirectory(z: seq<byte>, at: nat, count: nat): Option<seq<File>>
    decreases count
  {
    if count == 0 then Some([])
    else
      var first := ReadCentral(z, at);
      if first.None? then None
      else
        var rest := ReadDirectory(z, first.value.1, count - 1);
        if rest.None? then None else Some([first.value.0] + rest.value)
  }

  /** The files of an archive on one disk and without a comment, from its end record */
  ghost function ReadArchive(z: seq<byte>): Option<seq<File>> {
    if |z| < 22 then None
    else
      var e := |z| - 22;
      var count, size, offset := Number(z, e + 10, 2), Number(z, e + 12, 4), Number(z, e + 16, 4);
      if Number(z, e, 4) != 0x0605_4b50 || Number(z, e + 4, 2) != 0 || Number(z, e + 6, 2) != 0
        || Number(z, e + 8, 2) != count || Number(z, e + 20, 2) != 0 then None
      else if count < 0 || size < 0 || offset < 0 || offset + size != e then None
      else ReadDirectory(z, offset, count)
  }
}
