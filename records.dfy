/** Decoding one entry record: a 192-byte header holding a NUL-terminated ASCII path at bytes
    4..99 and a little-endian size at bytes 104..107, followed directly by the body. */
module Records {

  import opened Bytes
  import opened WadTypes

  const RecordSize: nat := 192
  const PathStart: nat := 4
  const PathEnd: nat := 100
  const SizeAt: nat := 104

  /** What decides whether a record's body is read: a plain flag, or a predicate over the
      record's metadata (its path and size), never over its body. */
  datatype Selector = Flag(on: bool) | Predicate(accepts: (string, nat) -> bool)

  /** The bytes before the first NUL; no NUL at all is an error (the scan raises). */
  function CString(data: seq<byte>): (r: Option<seq<byte>>)
    ensures r.None? <==> 0 !in data
    ensures r.Some? ==> |r.value| < |data| && r.value == data[..|r.value|] && data[|r.value|] == 0
    ensures r.Some? ==> 0 !in r.value
  {
    if |data| == 0 then None
    else if data[0] == 0 then Some([])
    else
      match CString(data[1..])
      case None => None
      case Some(rest) => Some([data[0]] + rest)
  }

  /** Round trip: a NUL-free path written as a NUL-terminated field, whatever padding follows,
      reads back as itself. */
  lemma {:induction false} CStringRoundTrip(p: seq<byte>, pad: seq<byte>)
    requires 0 !in p
    ensures CString(p + [0] + pad) == Some(p)
  {
    var field := p + [0] + pad;
    if p != [] {
      assert field[0] == p[0] != 0;
      assert field[1..] == p[1..] + [0] + pad;
      CStringRoundTrip(p[1..], pad);
      assert [p[0]] + p[1..] == p;
    }
  }

  /** ASCII decoding: every byte below 0x80 becomes the character with that code; any other
      byte makes decoding fail. */
  function AsciiDecode(raw: seq<byte>): (r: Option<string>)
    ensures r.Some? <==> forall i :: 0 <= i < |raw| ==> raw[i] < 0x80
    ensures r.Some? ==> |r.value| == |raw| && forall i :: 0 <= i < |raw| ==> r.value[i] as int == raw[i]
  {
    if raw == [] then Some([])
    else if raw[0] >= 0x80 then None
    else
      match AsciiDecode(raw[1..])
      case None => None
      case Some(rest) => Some([raw[0] as char] + rest)
  }

  /** Whether a body is read, as the selector intends: a flag says so directly, a predicate is
      asked about the record's path and size. */
  function ReadsBody(sel: Selector, path: string, size: nat): (r: bool)
    ensures sel.Predicate? ==> (r <==> sel.accepts(path, size))
  {
    match sel
    case Flag(on) => on
    case Predicate(accepts) => accepts(path, size)
  }

  /** Python truthiness of the selector: a function object is always true. */
  function Truthy(sel: Selector): (b: bool)
    ensures sel.Predicate? ==> b
    ensures sel.Flag? ==> (b <==> sel.on)
  {
    match sel
    case Flag(on) => on
    case Predicate(_) => true
  }

  /** Whether a body is read by the test as written, `callable(s) and s(entry) or s`, which
      parses as `(callable(s) and s(entry)) or s`: a predicate's answer is overridden by the
      truthiness of the predicate itself. */
  function ReadsBodyAsWritten(sel: Selector, path: string, size: nat): (r: bool)
    ensures sel.Predicate? ==> r
    ensures sel.Flag? ==> r == sel.on
  {
    (sel.Predicate? && sel.accepts(path, size)) || Truthy(sel)
  }

  /** The path of a record header: its bytes 4..99 up to the first NUL, decoded as ASCII. */
  function DecodePath(header: seq<byte>): (r: Result<string>)
    ensures r.Ok? ==> |r.value| < PathEnd - PathStart
  {
    match CString(Slice(header, PathStart, PathEnd))
    case None => Err(UnterminatedPath)
    case Some(raw) =>
      match AsciiDecode(raw)
      case None => Err(NonAsciiPath)
      case Some(path) => Ok(path)
  }

  /** Decodes the record at `ptr`. The path is the NUL-terminated part of bytes 4..99, the size
      the little-endian integer at 104..107; when the selector asks for it, the body is read
      from right after the 192 header bytes, and may come back short. */
  function ReadWadEntry(wad: Wad, ptr: nat, sel: Selector): (r: Result<Entry>)
    ensures r.Ok? ==> ptr in wad.entryPointers
    ensures r.Ok? ==> (r.value.body.Some? <==> ReadsBody(sel, r.value.path, r.value.size))
  {
    if ptr !in wad.entryPointers then Err(NotAnEntryPointer(ptr))
    else
      var header := Slice(wad.data, ptr, ptr + RecordSize);
      match DecodePath(header)
      case Err(e) => Err(e)
      case Ok(path) =>
        if |header| < SizeAt + 4 then Err(RecordTooShort)
        else
          var size := U32Le(header[SizeAt..SizeAt + 4]);
          if ReadsBody(sel, path, size) then
            var position := ptr + |header|;
            Ok(Entry(path, size, Some(Slice(wad.data, position, position + size))))
          else
            Ok(Entry(path, size, None))
  }

  // ---------------------------------------------------------------------------------------
  // Properties of a decoded record

  /** A decoded path is the part of header bytes 4..99 before the first NUL, byte for byte. */
  lemma PathBytes(header: seq<byte>, path: string)
    requires DecodePath(header) == Ok(path)
    ensures PathStart + |path| < |header|
    ensures forall i :: 0 <= i < |path| ==> path[i] as int == header[PathStart + i] != 0
    ensures header[PathStart + |path|] == 0
  {
    var field := Slice(header, PathStart, PathEnd);
    var raw := CString(field).value;
    assert AsciiDecode(raw) == Some(path);
    assert forall i :: 0 <= i < |raw| ==> raw[i] == field[i] != 0;
  }

  /** The path of a decoded record: the bytes at offset 4 of the record up to the first NUL,
      which comes before offset 100. */
  lemma EntryPath(wad: Wad, ptr: nat, sel: Selector)
    requires ReadWadEntry(wad, ptr, sel).Ok?
    ensures var path := ReadWadEntry(wad, ptr, sel).value.path;
      && ptr + PathStart + |path| < |wad.data|
      && |path| < PathEnd - PathStart
      && (forall i :: 0 <= i < |path| ==> path[i] as int == wad.data[ptr + PathStart + i] != 0)
      && wad.data[ptr + PathStart + |path|] == 0
  {
    var header := Slice(wad.data, ptr, ptr + RecordSize);
    var path := ReadWadEntry(wad, ptr, sel).value.path;
    assert DecodePath(header) == Ok(path);
    PathBytes(header, path);
    forall i | 0 <= i < |path| ensures path[i] as int == wad.data[ptr + PathStart + i] != 0 {
      assert path[i] as int == header[PathStart + i] == wad.data[ptr + (PathStart + i)];
    }
    assert header[PathStart + |path|] == wad.data[ptr + (PathStart + |path|)];
  }

  /** The size of a decoded record: the little-endian integer at offsets 104..107 of the record. */
  lemma EntrySize(wad: Wad, ptr: nat, sel: Selector)
    requires ReadWadEntry(wad, ptr, sel).Ok?
    ensures ptr + SizeAt + 4 <= |wad.data|
    ensures ReadWadEntry(wad, ptr, sel).value.size == U32Le(wad.data[ptr + SizeAt..ptr + SizeAt + 4])
  {
    var header := Slice(wad.data, ptr, ptr + RecordSize);
    SliceOfSlice(wad.data, ptr, RecordSize, SizeAt, SizeAt + 4);
    SliceInside(header, SizeAt, SizeAt + 4);
  }

  /** The body of a decoded record: present exactly when the selector asks for it, and then the
      bytes right after the 192-byte record header, as many of `size` as the file holds. */
  lemma EntryBody(wad: Wad, ptr: nat, sel: Selector)
    requires ReadWadEntry(wad, ptr, sel).Ok?
    ensures var e := ReadWadEntry(wad, ptr, sel).value;
      && (e.body.Some? <==> ReadsBody(sel, e.path, e.size))
      && (e.body.Some? ==> e.body.value == Slice(wad.data, ptr + RecordSize, ptr + RecordSize + e.size))
  {
  }

  /** A body, when read, is never longer than the size field, and has exactly that length
      whenever the file holds that many bytes after the record header. */
  lemma BodyLength(wad: Wad, ptr: nat, sel: Selector)
    requires ReadWadEntry(wad, ptr, sel).Ok? && ReadWadEntry(wad, ptr, sel).value.body.Some?
    ensures var e := ReadWadEntry(wad, ptr, sel).value;
      && |e.body.value| <= e.size
      && (ptr + RecordSize + e.size <= |wad.data| ==> |e.body.value| == e.size)
  {
    EntryBody(wad, ptr, sel);
  }

  /** The ways a decode fails: an offset outside the index; a path field with no terminator; a
      path with a byte of 0x80 or above; a record too short to hold the size field at 104..107. */
  lemma EntryErrors(wad: Wad, ptr: nat, sel: Selector)
    ensures ptr !in wad.entryPointers ==> ReadWadEntry(wad, ptr, sel) == Err(NotAnEntryPointer(ptr))
    ensures ptr in wad.entryPointers && 0 !in Slice(wad.data, ptr + PathStart, ptr + PathEnd) ==>
      ReadWadEntry(wad, ptr, sel) == Err(UnterminatedPath)
    ensures var raw := CString(Slice(wad.data, ptr + PathStart, ptr + PathEnd));
      ptr in wad.entryPointers && raw.Some? && AsciiDecode(raw.value).None? ==>
        ReadWadEntry(wad, ptr, sel) == Err(NonAsciiPath)
    ensures var raw := CString(Slice(wad.data, ptr + PathStart, ptr + PathEnd));
      ptr in wad.entryPointers && raw.Some? && AsciiDecode(raw.value).Some? && |wad.data| < ptr + SizeAt + 4 ==>
        ReadWadEntry(wad, ptr, sel) == Err(RecordTooShort)
  {
    var header := Slice(wad.data, ptr, ptr + RecordSize);
    SliceOfSlice(wad.data, ptr, RecordSize, PathStart, PathEnd);
    assert Slice(header, PathStart, PathEnd) == Slice(wad.data, ptr + PathStart, ptr + PathEnd);
  }

  /** A record decodes exactly when none of the failures above applies: its offset is in the
      index, its path field holds a NUL before which every byte is ASCII, and the file holds its
      size field. */
  lemma EntryDecodes(wad: Wad, ptr: nat, sel: Selector)
    ensures var raw := CString(Slice(wad.data, ptr + PathStart, ptr + PathEnd));
      (ptr in wad.entryPointers && raw.Some? && AsciiDecode(raw.value).Some? && ptr + SizeAt + 4 <= |wad.data|)
        <==> ReadWadEntry(wad, ptr, sel).Ok?
  {
    var header := Slice(wad.data, ptr, ptr + RecordSize);
    SliceOfSlice(wad.data, ptr, RecordSize, PathStart, PathEnd);
    assert Slice(header, PathStart, PathEnd) == Slice(wad.data, ptr + PathStart, ptr + PathEnd);
  }

  /** The metadata of a record does not depend on whether or how its body is asked for. */
  lemma MetadataIndependentOfSelector(wad: Wad, ptr: nat, s1: Selector, s2: Selector)
    ensures ReadWadEntry(wad, ptr, s1).Ok? <==> ReadWadEntry(wad, ptr, s2).Ok?
    ensures ReadWadEntry(wad, ptr, s1).Ok? ==>
      ReadWadEntry(wad, ptr, s1).value.path == ReadWadEntry(wad, ptr, s2).value.path &&
      ReadWadEntry(wad, ptr, s1).value.size == ReadWadEntry(wad, ptr, s2).value.size
  {
  }

  // ---------------------------------------------------------------------------------------
  // The selector test as written, against the intended one

  /** A predicate that rejects a record still gets its body read by the test as written,
      while the intended test skips it. */
  lemma PredicateIgnoredAsWritten(accepts: (string, nat) -> bool, path: string, size: nat)
    requires !accepts(path, size)
    ensures ReadsBodyAsWritten(Predicate(accepts), path, size)
    ensures !ReadsBody(Predicate(accepts), path, size)
  {
  }

  /** The two tests agree on plain flags (so listing, which passes false, is unaffected), and
      the test as written treats every predicate as the select-everything predicate. */
  lemma AsWrittenIsSelectAll(sel: Selector, path: string, size: nat)
    ensures sel.Flag? ==> ReadsBodyAsWritten(sel, path, size) == ReadsBody(sel, path, size)
    ensures sel.Predicate? ==>
      ReadsBodyAsWritten(sel, path, size) == ReadsBody(Predicate((p: string, n: nat) => true), path, size)
  {
  }
}
