/** native/UserAuditSvc/src/zip_writer.cpp: files stored uncompressed in a ZIP archive. */
module ZipWriter {
  import opened Options
  import opened Ints
  import opened Bytes
  import opened Crc32
  import opened CrcPolynomial
  import opened ZipFormat

  // The archive ----------------------------------------------------------------------------------------------

  /** An entry to be archived: its name, and the bytes of its source file if it can be read */
  datatype ZipEntry = ZipEntry(name: seq<byte>, contents: Option<seq<byte>>)

  function FileOf(e: ZipEntry): File
    requires e.contents.Some?
  {
    File(e.name, e.contents.value, Crc(0, e.contents.value))
  }

  predicate Usable(e: ZipEntry) {
    e.name != [] && e.contents.Some?
  }

  predicate AllUsable(es: seq<ZipEntry>) {
    forall i :: 0 <= i < |es| ==> Usable(es[i])
  }

  function Files(es: seq<ZipEntry>): (fs: seq<File>)
    requires AllUsable(es)
    ensures |fs| == |es|
  {
    seq(|es|, i requires 0 <= i < |es| => FileOf(es[i]))
  }

  function LocalHeader(f: File): seq<Field> {
    LocalFields(f.crc % 0x1_0000_0000, |f.bytes| % 0x1_0000_0000, |f.name| % 0x1_0000)
  }

  function LocalRecord(f: File): seq<byte> {
    Layout(LocalHeader(f)) + f.name + f.bytes
  }

  function Locals(fs: seq<File>): seq<byte> {
    if fs == [] then [] else Locals(fs[..|fs| - 1]) + LocalRecord(fs[|fs| - 1])
  }

  function CentralHeader(f: File, offset: nat): seq<Field> {
    CentralFields(f.crc % 0x1_0000_0000, |f.bytes| % 0x1_0000_0000, |f.name| % 0x1_0000, offset % 0x1_0000_0000)
  }

  function CentralRecord(f: File, offset: nat): seq<byte> {
    Layout(CentralHeader(f, offset)) + f.name
  }

  /** The central records, each pointing at the end of the local records before its own */
  function Centrals(fs: seq<File>): seq<byte> {
    if fs == [] then []
    else
      var before := fs[..|fs| - 1];
      Centrals(before) + CentralRecord(fs[|fs| - 1], |Locals(before)|)
  }

  function EndRecord(fs: seq<File>): seq<byte> {
    Layout(EndFields(|fs| % 0x1_0000, |Centrals(fs)| % 0x1_0000_0000, |Locals(fs)| % 0x1_0000_0000))
  }

  function Archive(fs: seq<File>): seq<byte> {
    Locals(fs) + Centrals(fs) + EndRecord(fs)
  }

  datatype ZipError = NoError | NoEntries | CannotCreate | EmptyName | CannotRead | WriteFailed

  /** The entry at which writing stops: those before it are usable. */
  ghost predicate StopsAt(es: seq<ZipEntry>, i: nat) {
    i < |es| && AllUsable(es[..i]) && !Usable(es[i])
  }

  /** A central record until it is written */
  datatype Record = Record(header: seq<Field>, name: seq<byte>)

  /** The loop over the entries: their local records, and the central records to be written later */
  method WriteLocals(entries: seq<ZipEntry>) returns (error: ZipError, output: seq<byte>, records: seq<Record>)
    ensures error == NoError || error == EmptyName || error == CannotRead
    ensures error == NoError <==> AllUsable(entries)
    ensures error == NoError ==> output == Locals(Files(entries)) && Recorded(records, Files(entries))
    ensures error == EmptyName ==>
      exists i: nat :: StopsAt(entries, i) && entries[i].name == [] && output == Locals(Files(entries[..i]))
    ensures error == CannotRead ==>
      exists i: nat :: StopsAt(entries, i) && entries[i].name != [] && output == Locals(Files(entries[..i]))
  {
    hide Crc, Locals, Layout, LocalFields, CentralFields;
    output, records := [], [];
    ghost var fs: seq<File> := [];
    NoLocals();
    for i := 0 to |entries|
      invariant AllUsable(entries[..i]) && fs == Files(entries[..i]) && |records| == i
      invariant output == Locals(fs)
      invariant forall k :: 0 <= k < i ==> records[k] == RecordOf(fs, k)
    {
      var entry := entries[i];
      if entry.name == [] {
        assert StopsAt(entries, i);
        return EmptyName, output, records;
      }
      if entry.contents.None? {
        assert StopsAt(entries, i);
        return CannotRead, output, records;
      }
      var bytes := entry.contents.value;
      var offset := |output| % 0x1_0000_0000;
      var crc := Crc32Update(0, bytes);
      var size := |bytes| % 0x1_0000_0000;
      var nameLength := |entry.name| % 0x1_0000;
      output := output + Layout(LocalFields(crc, size, nameLength));
      output := output + entry.name;
      output := output + bytes;
      records := records + [Record(CentralFields(crc, size, nameLength, offset), entry.name)];
      LocalsExtend(fs, FileOf(entry));
      RecordsExtend(fs, FileOf(entry));
      fs := fs + [FileOf(entry)];
      assert fs == Files(entries[..i + 1]);
    }
    assert entries[..|entries|] == entries;
    error := NoError;
  }

  predicate Recorded(records: seq<Record>, fs: seq<File>) {
    |records| == |fs| && forall k :: 0 <= k < |fs| ==> records[k] == RecordOf(fs, k)
  }

  function RecordOf(fs: seq<File>, k: nat): Record
    requires k < |fs|
  {
    Record(CentralHeader(fs[k], |Locals(fs[..k])|), fs[k].name)
  }

  lemma NoLocals()
    ensures Locals([]) == []
  {
  }

  lemma LocalsExtend(fs: seq<File>, f: File)
    ensures Locals(fs + [f]) == Locals(fs) + LocalRecord(f)
  {
    hide LocalRecord;
    assert (fs + [f])[..|fs|] == fs;
  }

  lemma RecordsExtend(fs: seq<File>, f: File)
    ensures forall k :: 0 <= k < |fs| ==> RecordOf(fs + [f], k) == RecordOf(fs, k)
    ensures RecordOf(fs + [f], |fs|) == Record(CentralHeader(f, |Locals(fs)|), f.name)
  {
    hide Locals, CentralHeader;
    forall k | 0 <= k <= |fs| ensures (fs + [f])[..k] == fs[..k] {
    }
    assert fs[..|fs|] == fs;
  }

  /** The loop over the central records: they are written out, and their size is added up. */
  method WriteCentrals(records: seq<Record>, ghost fs: seq<File>) returns (output: seq<byte>, size: nat)
    requires Recorded(records, fs)
    ensures output == Centrals(fs) && size == |output| % 0x1_0000_0000
  {
    hide Crc, Locals, Centrals, Layout, CentralFields, CentralHeader;
    output, size := [], 0;
    NoCentrals();
    for i := 0 to |records|
      invariant output == Centrals(fs[..i]) && size == |output| % 0x1_0000_0000
    {
      var record := records[i];
      HeaderSize(fs[i], |Locals(fs[..i])|);
      CentralsStep(fs, i);
      SizesAdd(|output|, 46 + |record.name|);
      output := output + Layout(record.header);
      output := output + record.name;
      size := (size + (46 + |record.name|) % 0x1_0000_0000) % 0x1_0000_0000;
    }
    assert fs[..|fs|] == fs;
  }

  lemma SizesAdd(a: nat, b: nat)
    ensures (a % 0x1_0000_0000 + b % 0x1_0000_0000) % 0x1_0000_0000 == (a + b) % 0x1_0000_0000
  {
  }

  lemma HeaderSize(f: File, offset: nat)
    ensures |Layout(CentralHeader(f, offset))| == 46
  {
    CentralSize(f.crc % 0x1_0000_0000, |f.bytes| % 0x1_0000_0000, |f.name| % 0x1_0000, offset % 0x1_0000_0000);
  }

  lemma NoCentrals()
    ensures Centrals([]) == []
  {
  }

  lemma CentralsStep(fs: seq<File>, i: nat)
    requires i < |fs|
    ensures Centrals(fs[..i + 1]) == Centrals(fs[..i]) + (Layout(RecordOf(fs, i).header) + fs[i].name)
  {
    hide CentralHeader, Locals;
    assert fs[..i + 1][..i] == fs[..i];
  }

  /** Writes the archive, or fails at the first entry that has no name or cannot be read. created and good
      are what opening and writing the output come to. */
  method CreateZipStore(entries: seq<ZipEntry>, created: bool, good: bool) returns (error: ZipError, output: seq<byte>)
    ensures error == NoError <==> (entries != [] && created && good
      && forall i :: 0 <= i < |entries| ==> entries[i].name != [] && entries[i].contents.Some?)
    ensures error == NoError ==> output == Archive(Files(entries))
    ensures error == NoError && EntriesFit(entries) ==> ReadsBack(output, entries)
    ensures error == NoEntries <==> entries == []
    ensures error == CannotCreate <==> entries != [] && !created
    ensures error == WriteFailed <==> entries != [] && created && AllUsable(entries) && !good
    ensures error == EmptyName ==>
      exists i: nat :: StopsAt(entries, i) && entries[i].name == [] && output == Locals(Files(entries[..i]))
    ensures error == CannotRead ==>
      exists i: nat :: StopsAt(entries, i) && entries[i].name != [] && output == Locals(Files(entries[..i]))
  {
    hide Locals, Centrals, Layout, EndFields, ReadsBack, EntriesFit;
    output := [];
    if entries == [] {
      return NoEntries, output;
    }
    if !created {
      return CannotCreate, output;
    }
    var records;
    error, output, records := WriteLocals(entries);
    if error != NoError {
      return;
    }
    ghost var fs := Files(entries);
    var centralOffset := |output| % 0x1_0000_0000;
    var centrals, centralSize := WriteCentrals(records, fs);
    output := output + centrals;
    var count := |records| % 0x1_0000;
    output := output + Layout(EndFields(count, centralSize, centralOffset));
    if EntriesFit(entries) {
      EntriesReadBack(entries);
    }
    if !good {
      error := WriteFailed;
    }
  }

  // Reading an archive back ------------------------------------------------------------------------------------

  /** r stands in z from a position on. */
  predicate StandsAt(z: seq<byte>, at: nat, r: seq<byte>) {
    at + |r| <= |z| && z[at..at + |r|] == r
  }

  lemma StandsParts(z: seq<byte>, at: nat, a: seq<byte>, b: seq<byte>)
    requires StandsAt(z, at, a + b)
    ensures StandsAt(z, at, a) && StandsAt(z, at + |a|, b)
  {
    var r := a + b;
    SliceOfSlice(z, at, r, 0, |a|);
    SliceOfSlice(z, at, r, |a|, |b|);
  }

  lemma SliceOfSlice(z: seq<byte>, at: nat, r: seq<byte>, o: nat, w: nat)
    requires StandsAt(z, at, r) && o + w <= |r|
    ensures at + o + w <= |z| && z[at + o..at + o + w] == r[o..o + w]
  {
    var y, v := z[at + o..at + o + w], r[o..o + w];
    forall k | 0 <= k < w ensures y[k] == v[k] {
      assert z[at..at + |r|][o + k] == r[o + k];
    }
  }

  /** A field of a record is read back as the number that was laid out. */
  lemma FieldRead(z: seq<byte>, at: nat, fs: seq<Field>, i: nat)
    requires StandsAt(z, at, Layout(fs)) && i < |fs| && fs[i].value < Pow2(8 * fs[i].width)
    ensures Number(z, at + Offset(fs, i), fs[i].width) == fs[i].value
  {
    hide Layout, Offset, Pow2, Nat, LittleEndian;
    FieldAt(fs, i);
    var o, w := Offset(fs, i), fs[i].width;
    LittleEndianValue(fs[i].value, w);
    SliceOfSlice(z, at, Layout(fs), o, w);
  }

  lemma NumberRead(z: seq<byte>, at: nat, fs: seq<Field>, i: nat, o: nat, v: nat, w: nat)
    requires StandsAt(z, at, Layout(fs)) && i < |fs| && fs[i] == Field(v, w) && Offset(fs, i) == o
    requires (w == 2 && v < 0x1_0000) || (w == 4 && v < 0x1_0000_0000)
    ensures Number(z, at + o, w) == v
  {
    hide Layout, Offset, Pow2, Number, StandsAt;
    Powers();
    Word32();
    FieldRead(z, at, fs, i);
  }

  /** A file with its checksum, whose sizes fit the fields. */
  ghost predicate Fits(f: File) {
    |f.name| < 0x1_0000 && |f.bytes| < 0x1_0000_0000 && IsChecksum(f.bytes, f.crc)
  }

  /** The fields of a local record, where section 4.3.7 of APPNOTE.TXT has them */
  lemma LocalNumbers(z: seq<byte>, at: nat, crc: nat, size: nat, n: nat)
    requires crc < 0x1_0000_0000 && size < 0x1_0000_0000 && n < 0x1_0000
      && StandsAt(z, at, Layout(LocalFields(crc, size, n)))
    ensures Number(z, at, 4) == 0x0403_4b50 && Number(z, at + 4, 2) == 20 && Number(z, at + 6, 2) == 0
      && Number(z, at + 8, 2) == 0 && Number(z, at + 10, 2) == 0 && Number(z, at + 12, 2) == 0
    ensures Number(z, at + 14, 4) == crc && Number(z, at + 18, 4) == size && Number(z, at + 22, 4) == size
      && Number(z, at + 26, 2) == n && Number(z, at + 28, 2) == 0
  {
    hide Layout, Offset, Number, StandsAt;
    LocalSize(crc, size, n);
    var fs := LocalFields(crc, size, n);
    NumberRead(z, at, fs, 0, 0, LOCAL_SIGNATURE, 4);
    NumberRead(z, at, fs, 1, 4, 20, 2);
    NumberRead(z, at, fs, 2, 6, 0, 2);
    NumberRead(z, at, fs, 3, 8, 0, 2);
    NumberRead(z, at, fs, 4, 10, 0, 2);
    NumberRead(z, at, fs, 5, 12, 0, 2);
    NumberRead(z, at, fs, 6, 14, crc, 4);
    NumberRead(z, at, fs, 7, 18, size, 4);
    NumberRead(z, at, fs, 8, 22, size, 4);
    NumberRead(z, at, fs, 9, 26, n, 2);
    NumberRead(z, at, fs, 10, 28, 0, 2);
  }

  lemma LocalRead(z: seq<byte>, at: nat, f: File)
    requires Fits(f) && StandsAt(z, at, LocalRecord(f))
    ensures ReadLocal(z, at, f.name, f.crc, |f.bytes|) == Some(f.bytes)
  {
    hide Layout, LocalFields, Number, StandsAt, IsChecksum;
    ChecksumRange(f.bytes, f.crc);
    var h := Layout(LocalHeader(f));
    StandsParts(z, at, h + f.name, f.bytes);
    StandsParts(z, at, h, f.name);
    LocalSize(f.crc, |f.bytes|, |f.name|);
    LocalNumbers(z, at, f.crc, |f.bytes|, |f.name|);
    StandsSlice(z, at + 30, f.name);
    StandsSlice(z, at + 30 + |f.name|, f.bytes);
  }

  lemma StandsSlice(z: seq<byte>, at: nat, r: seq<byte>)
    requires StandsAt(z, at, r)
    ensures at + |r| <= |z| && z[at..at + |r|] == r
  {
  }

  /** The fields of a central record, section 4.3.12 */
  lemma CentralNumbers(z: seq<byte>, at: nat, crc: nat, size: nat, n: nat, offset: nat)
    requires crc < 0x1_0000_0000 && size < 0x1_0000_0000 && n < 0x1_0000 && offset < 0x1_0000_0000
    requires StandsAt(z, at, Layout(CentralFields(crc, size, n, offset)))
    ensures Number(z, at, 4) == 0x0201_4b50 && Number(z, at + 4, 2) == 20 && Number(z, at + 6, 2) == 20
      && Number(z, at + 8, 2) == 0 && Number(z, at + 10, 2) == 0 && Number(z, at + 12, 2) == 0
      && Number(z, at + 14, 2) == 0
    ensures Number(z, at + 16, 4) == crc && Number(z, at + 20, 4) == size && Number(z, at + 24, 4) == size
      && Number(z, at + 28, 2) == n && Number(z, at + 42, 4) == offset
    ensures Number(z, at + 30, 2) == 0 && Number(z, at + 32, 2) == 0 && Number(z, at + 34, 2) == 0
      && Number(z, at + 36, 2) == 0 && Number(z, at + 38, 4) == 0
  {
    hide Layout, Offset, Number, StandsAt;
    CentralSize(crc, size, n, offset);
    var fs := CentralFields(crc, size, n, offset);
    NumberRead(z, at, fs, 0, 0, CENTRAL_SIGNATURE, 4);
    NumberRead(z, at, fs, 1, 4, 20, 2);
    NumberRead(z, at, fs, 2, 6, 20, 2);
    NumberRead(z, at, fs, 3, 8, 0, 2);
    NumberRead(z, at, fs, 4, 10, 0, 2);
    NumberRead(z, at, fs, 5, 12, 0, 2);
    NumberRead(z, at, fs, 6, 14, 0, 2);
    NumberRead(z, at, fs, 7, 16, crc, 4);
    NumberRead(z, at, fs, 8, 20, size, 4);
    NumberRead(z, at, fs, 9, 24, size, 4);
    NumberRead(z, at, fs, 10, 28, n, 2);
    NumberRead(z, at, fs, 11, 30, 0, 2);
    NumberRead(z, at, fs, 12, 32, 0, 2);
    NumberRead(z, at, fs, 13, 34, 0, 2);
    NumberRead(z, at, fs, 14, 36, 0, 2);
    NumberRead(z, at, fs, 15, 38, 0, 4);
    NumberRead(z, at, fs, 16, 42, offset, 4);
  }

  lemma CentralRead(z: seq<byte>, at: nat, f: File, offset: nat)
    requires Fits(f) && StandsAt(z, at, CentralRecord(f, offset)) && offset < 0x1_0000_0000
    requires StandsAt(z, offset, LocalRecord(f))
    ensures ReadCentral(z, at) == Some((f, at + |CentralRecord(f, offset)|))
  {
    hide Layout, CentralFields, Number, StandsAt, ReadLocal, LocalRecord, IsChecksum;
    ChecksumRange(f.bytes, f.crc);
    LocalRead(z, offset, f);
    var h := Layout(CentralHeader(f, offset));
    StandsParts(z, at, h, f.name);
    CentralSize(f.crc, |f.bytes|, |f.name|, offset);
    CentralNumbers(z, at, f.crc, |f.bytes|, |f.name|, offset);
    StandsSlice(z, at + 46, f.name);
  }

  /** The fields of the end record, section 4.3.16 */
  lemma EndNumbers(z: seq<byte>, at: nat, count: nat, size: nat, offset: nat)
    requires count < 0x1_0000 && size < 0x1_0000_0000 && offset < 0x1_0000_0000
    requires StandsAt(z, at, Layout(EndFields(count, size, offset)))
    ensures Number(z, at, 4) == 0x0605_4b50 && Number(z, at + 4, 2) == 0 && Number(z, at + 6, 2) == 0
    ensures Number(z, at + 8, 2) == count && Number(z, at + 10, 2) == count
    ensures Number(z, at + 12, 4) == size && Number(z, at + 16, 4) == offset && Number(z, at + 20, 2) == 0
  {
    hide Layout, Offset, Number, StandsAt;
    EndSize(count, size, offset);
    var fs := EndFields(count, size, offset);
    NumberRead(z, at, fs, 0, 0, END_SIGNATURE, 4);
    NumberRead(z, at, fs, 1, 4, 0, 2);
    NumberRead(z, at, fs, 2, 6, 0, 2);
    NumberRead(z, at, fs, 3, 8, count, 2);
    NumberRead(z, at, fs, 4, 10, count, 2);
    NumberRead(z, at, fs, 5, 12, size, 4);
    NumberRead(z, at, fs, 6, 16, offset, 4);
    NumberRead(z, at, fs, 7, 20, 0, 2);
  }

  ghost predicate AllFit(fs: seq<File>) {
    |fs| < 0x1_0000 && |Archive(fs)| < 0x1_0000_0000 && forall i :: 0 <= i < |fs| ==> Fits(fs[i])
  }

  /** The local records of the files tile the start of the archive. */
  lemma {:induction false} LocalsStand(z: seq<byte>, fs: seq<File>, k: nat)
    requires StandsAt(z, 0, Locals(fs)) && k < |fs|
    ensures StandsAt(z, |Locals(fs[..k])|, LocalRecord(fs[k]))
    ensures |Locals(fs[..k])| + |LocalRecord(fs[k])| == |Locals(fs[..k + 1])| <= |Locals(fs)|
    decreases |fs|
  {
    hide LocalRecord;
    var n := |fs| - 1;
    StandsParts(z, 0, Locals(fs[..n]), LocalRecord(fs[n]));
    if k < n {
      LocalsStand(z, fs[..n], k);
      assert fs[..n][..k] == fs[..k] && fs[..n][..k + 1] == fs[..k + 1];
    } else {
      assert fs[..k + 1] == fs;
    }
  }

  lemma {:induction false} CentralsStand(z: seq<byte>, at: nat, fs: seq<File>, k: nat)
    requires StandsAt(z, at, Centrals(fs)) && k < |fs|
    ensures StandsAt(z, at + |Centrals(fs[..k])|, CentralRecord(fs[k], |Locals(fs[..k])|))
    ensures |Centrals(fs[..k])| + |CentralRecord(fs[k], |Locals(fs[..k])|)| == |Centrals(fs[..k + 1])|
    decreases |fs|
  {
    hide CentralRecord, Locals;
    var n := |fs| - 1;
    StandsParts(z, at, Centrals(fs[..n]), CentralRecord(fs[n], |Locals(fs[..n])|));
    if k < n {
      CentralsStand(z, at, fs[..n], k);
      assert fs[..n][..k] == fs[..k] && fs[..n][..k + 1] == fs[..k + 1];
    } else {
      assert fs[..k + 1] == fs;
    }
  }

  /** From the central record of file k on, the reader finds the files from k on. */
  lemma {:induction false} DirectoryRead(z: seq<byte>, at: nat, fs: seq<File>, k: nat)
    requires k <= |fs| && StandsAt(z, 0, Locals(fs)) && StandsAt(z, at, Centrals(fs)) && |z| < 0x1_0000_0000
    requires forall i :: 0 <= i < |fs| ==> Fits(fs[i])
    ensures ReadDirectory(z, at + |Centrals(fs[..k])|, |fs| - k) == Some(fs[k..])
    decreases |fs| - k
  {
    hide Locals, Centrals, StandsAt, ReadCentral, Fits, LocalRecord, CentralRecord;
    if k < |fs| {
      LocalsStand(z, fs, k);
      CentralsStand(z, at, fs, k);
      LocalsInside(z, fs);
      CentralRead(z, at + |Centrals(fs[..k])|, fs[k], |Locals(fs[..k])|);
      DirectoryRead(z, at, fs, k + 1);
      assert fs[k..] == [fs[k]] + fs[k + 1..];
    }
  }

  lemma LocalsInside(z: seq<byte>, fs: seq<File>)
    requires StandsAt(z, 0, Locals(fs))
    ensures |Locals(fs)| <= |z|
  {
  }

  /** The local records, the central records and the end record make up the archive. */
  lemma ArchiveParts(fs: seq<File>)
    ensures var z, l, c := Archive(fs), Locals(fs), Centrals(fs);
      && |z| == |l| + |c| + 22
      && StandsAt(z, 0, l) && StandsAt(z, |l|, c) && StandsAt(z, |l| + |c|, EndRecord(fs))
  {
    hide Locals, Centrals, Layout, EndFields, StandsAt;
    EndSize(|fs| % 0x1_0000, |Centrals(fs)| % 0x1_0000_0000, |Locals(fs)| % 0x1_0000_0000);
    var l, c, e := Locals(fs), Centrals(fs), EndRecord(fs);
    WholeStands(l + c + e);
    StandsParts(l + c + e, 0, l + c, e);
    StandsParts(l + c + e, 0, l, c);
  }

  lemma WholeStands(z: seq<byte>)
    ensures StandsAt(z, 0, z)
  {
  }

  /** A reader recovers exactly the files that were archived, in their order. */
  lemma ArchiveInverts(fs: seq<File>)
    requires AllFit(fs)
    ensures ReadArchive(Archive(fs)) == Some(fs)
  {
    hide Locals, Centrals, Layout, EndFields, Number, ReadDirectory, StandsAt, Archive, Fits;
    var z, l, c := Archive(fs), Locals(fs), Centrals(fs);
    ArchiveParts(fs);
    EndNumbers(z, |l| + |c|, |fs|, |c|, |l|);
    NoCentrals();
    assert fs[..0] == [] && fs[0..] == fs;
    DirectoryRead(z, |l|, fs, 0);
  }

  /** The names, counts and offsets of what is written for usable entries fit the fields of the format. */
  ghost predicate EntriesFit(entries: seq<ZipEntry>) {
    && AllUsable(entries) && |entries| < 0x1_0000 && |Archive(Files(entries))| < 0x1_0000_0000
    && forall i :: 0 <= i < |entries| ==> |entries[i].name| < 0x1_0000
  }

  /** The reader finds the entries in z, in their order: each with its name, its bytes and their checksum. */
  ghost predicate ReadsBack(z: seq<byte>, entries: seq<ZipEntry>) {
    var r := ReadArchive(z);
    && r.Some? && |r.value| == |entries|
    && forall i :: 0 <= i < |entries| ==>
      && r.value[i].name == entries[i].name && Some(r.value[i].bytes) == entries[i].contents
      && IsChecksum(r.value[i].bytes, r.value[i].crc)
  }

  /** What is written for entries that fit can be read back. */
  lemma EntriesReadBack(entries: seq<ZipEntry>)
    requires EntriesFit(entries)
    ensures ReadsBack(Archive(Files(entries)), entries)
  {
    hide Archive, ReadArchive, Crc, IsChecksum;
    var fs := Files(entries);
    forall i | 0 <= i < |fs| ensures Fits(fs[i]) {
      BytesInside(fs, i);
      CrcIsRemainder(fs[i].bytes);
    }
    ArchiveInverts(fs);
  }

  lemma BytesInside(fs: seq<File>, i: nat)
    requires i < |fs|
    ensures |fs[i].bytes| <= |Archive(fs)|
  {
    hide Locals, Centrals, Layout, StandsAt, Archive;
    ArchiveParts(fs);
    LocalsStand(Archive(fs), fs, i);
    LocalsInside(Archive(fs), fs);
  }
}
