/**
 The `.res` file that carries a process manifest: an empty record, then one record of type 24 and
 id 1, little endian, padded to four bytes.  A reader of that format gets the manifest back.
 */
module ManifestResource {
  import opened Options
  import opened Bits

  type U16 = w: int | 0 <= w < 0x1_0000

  const TYPE_MANIFEST: U16 := 24
  const PROCESS_MANIFEST_ID: U16 := 1
  const LANG_ENGLISH_US: U16 := 1033
  const MEMORY_FLAGS: U16 := 0x1030
  const U32_LIMIT: nat := 0x1_0000_0000
  const HEADER_SIZE: nat := 32

  // ----- writing -----

  function Low(v: nat): U16 { v % 0x1_0000 }

  function High(v: nat): U16
    requires v < U32_LIMIT
  {
    v / 0x1_0000
  }

  /** Words, least significant byte first. */
  function Bytes(ws: seq<U16>): (r: seq<Byte>)
    ensures |r| == 2 * |ws|
  {
    if ws == [] then [] else Bytes(ws[..|ws| - 1]) + [ws[|ws| - 1] % 256, ws[|ws| - 1] / 256]
  }

  function HeaderWords(dataSize: nat, ty: U16, id: U16, flags: U16, language: U16): (r: seq<U16>)
    requires dataSize < U32_LIMIT
    ensures |r| == 16
  {
    [Low(dataSize), High(dataSize), 32, 0, 0xFFFF, ty, 0xFFFF, id, 0, 0, flags, language, 0, 0, 0, 0]
  }

  function Padding(n: nat): (p: nat)
    ensures (n + p) % 4 == 0 && p < 4
  {
    (4 - n % 4) % 4
  }

  function ZeroBytes(n: nat): (r: seq<Byte>)
    ensures |r| == n
  {
    seq(n, _ => 0)
  }

  /** One header followed by padded data; the size field holds the size modulo 2^32. */
  function RecordBytes(ty: U16, id: U16, flags: U16, language: U16, data: seq<Byte>): seq<Byte> {
    Bytes(HeaderWords(|data| % U32_LIMIT, ty, id, flags, language)) + data + ZeroBytes(Padding(|data|))
  }

  function ResourceBytes(manifest: seq<Byte>): seq<Byte> {
    RecordBytes(0, 0, 0, 0, [])
    + RecordBytes(TYPE_MANIFEST, PROCESS_MANIFEST_ID, MEMORY_FLAGS, LANG_ENGLISH_US, manifest)
  }

  /** Least significant byte first. */
  lemma LittleEndian()
    ensures Bytes([0x1030]) == [0x30, 0x10] && Low(0x1234_5678) == 0x5678 && High(0x1234_5678) == 0x1234
  {
    assert [0x1030][..0] == [];
  }

  lemma BytesAppend(ws: seq<U16>, w: U16)
    ensures Bytes(ws + [w]) == Bytes(ws) + [w % 256, w / 256]
  {
    assert (ws + [w])[..|ws|] == ws;
  }

  class Writer {
    var res: seq<Byte>

    constructor ()
      ensures res == []
    {
      res := [];
    }

    method PutU16(value: U16, ghost start: seq<Byte>, ghost ws: seq<U16>)
      requires res == start + Bytes(ws)
      modifies this
      ensures res == start + Bytes(ws + [value])
    {
      BytesAppend(ws, value);
      res := res + [value % 256];
      res := res + [value / 256];
      assert res == start + (Bytes(ws) + [value % 256, value / 256]);
    }

    method PutU32(value: nat, ghost start: seq<Byte>, ghost ws: seq<U16>)
      requires res == start + Bytes(ws) && value < U32_LIMIT
      modifies this
      ensures res == start + Bytes(ws + [Low(value), High(value)])
    {
      PutU16(Low(value), start, ws);
      PutU16(High(value), start, ws + [Low(value)]);
      assert ws + [Low(value)] + [High(value)] == ws + [Low(value), High(value)];
    }

    method PutHeader(dataSize: nat, ty: U16, id: U16, flags: U16, language: U16)
      requires dataSize < U32_LIMIT
      modifies this
      ensures res == old(res) + Bytes(HeaderWords(dataSize, ty, id, flags, language))
    {
      hide Bytes;
      NoWords();
      ghost var start, ws: seq<U16> := res, [];
      assert res == start + [];
      PutU32(dataSize, start, ws);
      ws := ws + [Low(dataSize), High(dataSize)];
      PutU32(32, start, ws);
      ws := ws + [Low(32), High(32)];
      PutU16(0xFFFF, start, ws);
      ws := ws + [0xFFFF];
      PutU16(ty, start, ws);
      ws := ws + [ty];
      PutU16(0xFFFF, start, ws);
      ws := ws + [0xFFFF];
      PutU16(id, start, ws);
      ws := ws + [id];
      PutU32(0, start, ws);
      ws := ws + [Low(0), High(0)];
      PutU16(flags, start, ws);
      ws := ws + [flags];
      PutU16(language, start, ws);
      ws := ws + [language];
      PutU32(0, start, ws);
      ws := ws + [Low(0), High(0)];
      PutU32(0, start, ws);
      ws := ws + [Low(0), High(0)];
      assert ws == HeaderWords(dataSize, ty, id, flags, language);
    }

    method PutData(data: seq<Byte>)
      modifies this
      ensures res == old(res) + data + ZeroBytes(Padding(|data|))
    {
      res := res + data;
      res := res + ZeroBytes((4 - |data| % 4) % 4);
    }
  }

  lemma NoWords()
    ensures Bytes([]) == []
  {
  }

  method BuildWindowsManifestResource(manifest: seq<Byte>) returns (res: seq<Byte>)
    ensures res == ResourceBytes(manifest)
  {
    hide Bytes, HeaderWords;
    var writer := new Writer();
    writer.PutHeader(0, 0, 0, 0, 0);
    var empty := writer.res;
    writer.PutHeader(|manifest| % U32_LIMIT, TYPE_MANIFEST, PROCESS_MANIFEST_ID, MEMORY_FLAGS, LANG_ENGLISH_US);
    writer.PutData(manifest);
    res := writer.res;
    assert empty == RecordBytes(0, 0, 0, 0, []);
    assert res == empty + RecordBytes(TYPE_MANIFEST, PROCESS_MANIFEST_ID, MEMORY_FLAGS, LANG_ENGLISH_US, manifest);
  }

  // ----- reading -----

  datatype Record = Record(ty: U16, id: U16, dataVersion: nat, flags: U16, language: U16, version: nat,
                           characteristics: nat, data: seq<Byte>)

  function WordAt(bytes: seq<Byte>, i: nat): U16
    requires 2 * i + 1 < |bytes|
  {
    var lo: int, hi: int := bytes[2 * i], bytes[2 * i + 1];
    lo + 256 * hi
  }

  function DwordAt(bytes: seq<Byte>, i: nat): nat
    requires 2 * i + 3 < |bytes|
  {
    WordAt(bytes, i) + 0x1_0000 * WordAt(bytes, i + 1)
  }

  /** The data size a header announces, with its padding. */
  function Span(bytes: seq<Byte>): nat
    requires |bytes| >= HEADER_SIZE
  {
    DwordAt(bytes, 0) + Padding(DwordAt(bytes, 0))
  }

  /** A record with ordinal type and name at the front of the bytes. */
  predicate StartsWithRecord(bytes: seq<Byte>) {
    && |bytes| >= HEADER_SIZE && DwordAt(bytes, 2) == HEADER_SIZE
    && WordAt(bytes, 4) == 0xFFFF && WordAt(bytes, 6) == 0xFFFF
    && HEADER_SIZE + Span(bytes) <= |bytes|
  }

  function FirstRecord(bytes: seq<Byte>): Record
    requires StartsWithRecord(bytes)
  {
    Record(WordAt(bytes, 5), WordAt(bytes, 7), DwordAt(bytes, 8), WordAt(bytes, 10), WordAt(bytes, 11),
           DwordAt(bytes, 12), DwordAt(bytes, 14), bytes[HEADER_SIZE..HEADER_SIZE + DwordAt(bytes, 0)])
  }

  /** All records of a file; `None` if it is not made of records. */
  function Read(bytes: seq<Byte>): Option<seq<Record>>
    decreases |bytes|
  {
    if bytes == [] then Some([])
    else if !StartsWithRecord(bytes) then None
    else
      var rest := Read(bytes[HEADER_SIZE + Span(bytes)..]);
      if rest.None? then None else Some([FirstRecord(bytes)] + rest.value)
  }

  // ----- the reader undoes the writer -----

  lemma {:induction false} WordReadsBack(ws: seq<U16>, rest: seq<Byte>, i: nat)
    requires i < |ws|
    ensures WordAt(Bytes(ws) + rest, i) == ws[i]
    decreases |ws|
  {
    var last := |ws| - 1;
    if i < last {
      WordReadsBack(ws[..last], [ws[last] % 256, ws[last] / 256] + rest, i);
      assert Bytes(ws) + rest == Bytes(ws[..last]) + ([ws[last] % 256, ws[last] / 256] + rest);
    }
  }

  lemma DwordReadsBack(ws: seq<U16>, rest: seq<Byte>, i: nat, v: nat)
    requires i + 1 < |ws| && v < U32_LIMIT && ws[i] == Low(v) && ws[i + 1] == High(v)
    ensures DwordAt(Bytes(ws) + rest, i) == v
  {
    hide Bytes, WordAt;
    WordReadsBack(ws, rest, i);
    WordReadsBack(ws, rest, i + 1);
  }

  lemma RecordReadsBack(ty: U16, id: U16, flags: U16, language: U16, data: seq<Byte>, rest: seq<Byte>)
    requires |data| < U32_LIMIT
    ensures var bytes := RecordBytes(ty, id, flags, language, data) + rest;
            && StartsWithRecord(bytes) && FirstRecord(bytes) == Record(ty, id, 0, flags, language, 0, 0, data)
            && bytes[HEADER_SIZE + Span(bytes)..] == rest && |bytes| >= HEADER_SIZE
  {
    hide Bytes, WordAt, Low, High;
    var n := |data|;
    var ws := HeaderWords(n, ty, id, flags, language);
    var tail := data + ZeroBytes(Padding(n)) + rest;
    var bytes := RecordBytes(ty, id, flags, language, data) + rest;
    assert n % U32_LIMIT == n;
    assert bytes == Bytes(ws) + tail;
    DwordReadsBack(ws, tail, 0, n);
    ThirtyTwo();
    DwordReadsBack(ws, tail, 2, 32);
    WordReadsBack(ws, tail, 4);
    WordReadsBack(ws, tail, 5);
    WordReadsBack(ws, tail, 6);
    WordReadsBack(ws, tail, 7);
    WordReadsBack(ws, tail, 10);
    WordReadsBack(ws, tail, 11);
    DwordReadsBack(ws, tail, 8, 0);
    DwordReadsBack(ws, tail, 12, 0);
    DwordReadsBack(ws, tail, 14, 0);
    assert bytes[HEADER_SIZE..] == tail;
    assert tail[..n] == data && tail[n + Padding(n)..] == rest;
    assert bytes[HEADER_SIZE..HEADER_SIZE + n] == bytes[HEADER_SIZE..][..n];
    assert bytes[HEADER_SIZE + Span(bytes)..] == bytes[HEADER_SIZE..][Span(bytes)..];
  }

  lemma ThirtyTwo()
    ensures Low(32) == 32 && High(32) == 0 && Low(0) == 0 && High(0) == 0
  {
  }

  const EMPTY_RECORD: Record := Record(0, 0, 0, 0, 0, 0, 0, [])

  function ManifestRecord(manifest: seq<Byte>): Record {
    Record(24, 1, 0, 0x1030, 1033, 0, 0, manifest)
  }

  /** A reader recovers the manifest exactly when its size fits the 32-bit size field. */
  lemma ManifestReadsBack(manifest: seq<Byte>)
    ensures Read(ResourceBytes(manifest)) == Some([EMPTY_RECORD, ManifestRecord(manifest)]) <==>
            |manifest| < U32_LIMIT
    ensures |ResourceBytes(manifest)| % 4 == 0
  {
    hide RecordBytes, StartsWithRecord, FirstRecord, Span;
    var second := RecordBytes(TYPE_MANIFEST, PROCESS_MANIFEST_ID, MEMORY_FLAGS, LANG_ENGLISH_US, manifest);
    var all := ResourceBytes(manifest);
    RecordReadsBack(0, 0, 0, 0, [], second);
    RecordLength(0, 0, 0, 0, []);
    RecordLength(TYPE_MANIFEST, PROCESS_MANIFEST_ID, MEMORY_FLAGS, LANG_ENGLISH_US, manifest);
    if |manifest| < U32_LIMIT {
      RecordReadsBack(TYPE_MANIFEST, PROCESS_MANIFEST_ID, MEMORY_FLAGS, LANG_ENGLISH_US, manifest, []);
      assert second + [] == second;
      assert Read(second) == Some([ManifestRecord(manifest)] + []);
      assert [ManifestRecord(manifest)] + [] == [ManifestRecord(manifest)];
      assert Read(all) == Some([EMPTY_RECORD] + Read(second).value);
      assert [EMPTY_RECORD] + [ManifestRecord(manifest)] == [EMPTY_RECORD, ManifestRecord(manifest)];
    } else if Read(second).Some? {
      DataFitsSizeField(second);
      assert Read(all) == Some([EMPTY_RECORD] + Read(second).value);
      assert ([EMPTY_RECORD] + Read(second).value)[1] == Read(second).value[0];
    }
  }

  lemma RecordLength(ty: U16, id: U16, flags: U16, language: U16, data: seq<Byte>)
    ensures var n := |RecordBytes(ty, id, flags, language, data)|; n % 4 == 0 && n >= HEADER_SIZE
  {
    hide Bytes, HeaderWords, Padding;
    var n := |data| + Padding(|data|);
    assert |RecordBytes(ty, id, flags, language, data)| == HEADER_SIZE + n;
  }

  /** No record read can be larger than its size field can say. */
  lemma DataFitsSizeField(bytes: seq<Byte>)
    requires Read(bytes).Some? && bytes != []
    ensures var r := Read(bytes).value; r != [] && |r[0].data| < U32_LIMIT
  {
    DwordBound(bytes, 0);
  }

  lemma DwordBound(bytes: seq<Byte>, i: nat)
    requires 2 * i + 3 < |bytes|
    ensures DwordAt(bytes, i) < U32_LIMIT
  {
  }
}
