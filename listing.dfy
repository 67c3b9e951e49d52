/** Listing a container: one line per entry pointer, in index order, decoded without its body. */
module Listing {

  import opened WadTypes
  import opened Records

  /** The lines produced, and the error that stopped the listing early, if any. */
  datatype Listing = Listing(lines: seq<string>, failure: Option<WadError>)

  function DigitChar(d: nat): (c: char)
    requires d < 10
    ensures '0' <= c <= '9' && (c as int) - ('0' as int) == d
  {
    ('0' as int + d) as char
  }

  /** The decimal text of a number, as `str` writes it. */
  function DecimalString(n: nat): (s: string)
    ensures |s| >= 1
    ensures forall i :: 0 <= i < |s| ==> '0' <= s[i] <= '9'
    ensures |s| == 1 || s[0] != '0'
    ensures s[0] == '0' <==> n == 0
  {
    if n < 10 then [DigitChar(n)] else DecimalString(n / 10) + [DigitChar(n % 10)]
  }

  /** The number a string of decimal digits denotes. */
  function DecimalValue(s: string): nat
    requires forall i :: 0 <= i < |s| ==> '0' <= s[i] <= '9'
  {
    if s == [] then 0 else 10 * DecimalValue(s[..|s| - 1]) + ((s[|s| - 1] as int) - ('0' as int))
  }

  /** The size column reads back as the size. */
  lemma {:induction false} DecimalRoundTrip(n: nat)
    ensures DecimalValue(DecimalString(n)) == n
  {
    if n >= 10 {
      var s := DecimalString(n);
      assert s[..|s| - 1] == DecimalString(n / 10);
      DecimalRoundTrip(n / 10);
    }
  }

  /** One listing line: the path alone, or the size (as a decimal number, or as the
      human-readable text `humanSize` gives) followed by a space and the path. */
  function RenderLine(e: Entry, long: bool, human: bool, humanSize: nat -> string): (line: string)
    ensures |line| >= |e.path| && line[|line| - |e.path|..] == e.path
  {
    if long then
      var size := if human then humanSize(e.size) else DecimalString(e.size);
      var line := size + " " + e.path;
      assert line[|line| - |e.path|..] == e.path;
      line
    else e.path
  }

  /** The layout of a line: it ends with the path; a long line has a size column and a space
      before the path, and a decimal size column reads back as the entry's size. */
  lemma LineLayout(e: Entry, long: bool, human: bool, humanSize: nat -> string)
    ensures var line := RenderLine(e, long, human, humanSize);
      && |line| >= |e.path| && line[|line| - |e.path|..] == e.path
      && (!long ==> line == e.path)
      && (long ==> |line| >= |e.path| + 1 && line[|line| - |e.path| - 1] == ' ')
      && (long && human ==> line[..|line| - |e.path| - 1] == humanSize(e.size))
      && (long && !human ==> var column := line[..|line| - |e.path| - 1];
            (forall i :: 0 <= i < |column| ==> '0' <= column[i] <= '9') && DecimalValue(column) == e.size)
  {
    if long {
      var size := if human then humanSize(e.size) else DecimalString(e.size);
      var line := size + " " + e.path;
      assert line[..|size|] == size;
      assert line[|size| + 1..] == e.path;
      if !human {
        DecimalRoundTrip(e.size);
      }
    }
  }

  /** The lines for the pointers from position `i` on: each pointer's record is decoded and
      rendered in turn, and the first record that fails to decode stops the listing. */
  function ListFrom(ptrs: seq<nat>, decode: nat -> Result<Entry>, render: Entry -> string, i: nat): (l: Listing)
    requires i <= |ptrs|
    ensures i + |l.lines| <= |ptrs|
    ensures l.failure.None? ==> i + |l.lines| == |ptrs|
    decreases |ptrs| - i
  {
    if i == |ptrs| then Listing([], None)
    else
      match decode(ptrs[i])
      case Err(e) => Listing([], Some(e))
      case Ok(entry) =>
        var rest := ListFrom(ptrs, decode, render, i + 1);
        Listing([render(entry)] + rest.lines, rest.failure)
  }

  /** Lists a container: every entry pointer in index order, its record decoded without its body. */
  function ListWad(wad: Wad, long: bool, human: bool, humanSize: nat -> string): (l: Listing)
    ensures |l.lines| <= |wad.entryPointers|
    ensures l.failure.None? ==> |l.lines| == |wad.entryPointers|
  {
    ListFrom(wad.entryPointers, Metadata(wad), Renderer(long, human, humanSize), 0)
  }

  /** How a listing decodes a pointer: the record without its body. */
  function Metadata(wad: Wad): nat -> Result<Entry> {
    (p: nat) => ReadWadEntry(wad, p, Flag(false))
  }

  function Renderer(long: bool, human: bool, humanSize: nat -> string): Entry -> string {
    e => RenderLine(e, long, human, humanSize)
  }

  lemma {:induction false} ListFromIsProjection(ptrs: seq<nat>, decode: nat -> Result<Entry>, render: Entry -> string, i: nat)
    requires i <= |ptrs|
    ensures var l := ListFrom(ptrs, decode, render, i);
      && i + |l.lines| <= |ptrs|
      && (l.failure.None? ==> i + |l.lines| == |ptrs|)
      && (l.failure.Some? ==> i + |l.lines| < |ptrs| && decode(ptrs[i + |l.lines|]) == Err(l.failure.value))
      && forall j :: i <= j < i + |l.lines| ==>
           decode(ptrs[j]).Ok? && l.lines[j - i] == render(decode(ptrs[j]).value)
    decreases |ptrs| - i
  {
    if i < |ptrs| && decode(ptrs[i]).Ok? {
      ListFromIsProjection(ptrs, decode, render, i + 1);
      var rest := ListFrom(ptrs, decode, render, i + 1);
      var l := ListFrom(ptrs, decode, render, i);
      assert l.lines[1..] == rest.lines;
      forall j | i < j < i + |l.lines|
        ensures decode(ptrs[j]).Ok? && l.lines[j - i] == render(decode(ptrs[j]).value)
      {
        assert l.lines[j - i] == rest.lines[j - (i + 1)];
      }
    }
  }

  /** The listing stops only at a record that fails to decode: on success there is exactly one
      line per entry pointer; otherwise the lines of the records before the first one that fails,
      followed by that record's error, which is never a missing pointer. */
  lemma ListWadStops(wad: Wad, long: bool, human: bool, humanSize: nat -> string)
    ensures var l := ListWad(wad, long, human, humanSize);
      && (l.failure.None? ==> |l.lines| == |wad.entryPointers|)
      && (l.failure.Some? ==>
            && |l.lines| < |wad.entryPointers|
            && ReadWadEntry(wad, wad.entryPointers[|l.lines|], Flag(false)) == Err(l.failure.value)
            && !l.failure.value.NotAnEntryPointer?)
  {
    var decode := Metadata(wad);
    var render := Renderer(long, human, humanSize);
    ListFromIsProjection(wad.entryPointers, decode, render, 0);
    var l := ListWad(wad, long, human, humanSize);
    if l.failure.Some? {
      var ptr := wad.entryPointers[|l.lines|];
      assert decode(ptr) == Err(l.failure.value);
      assert ptr in wad.entryPointers;
    }
  }

  /** A container whose every record decodes lists completely: one line per entry pointer. */
  lemma ListWadSucceeds(wad: Wad, long: bool, human: bool, humanSize: nat -> string)
    requires forall k :: 0 <= k < |wad.entryPointers| ==> ReadWadEntry(wad, wad.entryPointers[k], Flag(false)).Ok?
    ensures ListWad(wad, long, human, humanSize).failure.None?
    ensures |ListWad(wad, long, human, humanSize).lines| == |wad.entryPointers|
  {
    ListWadStops(wad, long, human, humanSize);
  }

  /** Line `k` of a listing renders the record at the entry pointer in the same position, read
      without its body. */
  lemma ListedLine(wad: Wad, long: bool, human: bool, humanSize: nat -> string, k: nat)
    requires k < |ListWad(wad, long, human, humanSize).lines|
    ensures k < |wad.entryPointers|
    ensures var r := ReadWadEntry(wad, wad.entryPointers[k], Flag(false));
      && r.Ok? && r.value.body.None?
      && ListWad(wad, long, human, humanSize).lines[k] == RenderLine(r.value, long, human, humanSize)
  {
    var decode := Metadata(wad);
    var render := Renderer(long, human, humanSize);
    ListFromLine(wad.entryPointers, decode, render, k);
    var r := decode(wad.entryPointers[k]);
    assert r == ReadWadEntry(wad, wad.entryPointers[k], Flag(false));
    assert render(r.value) == RenderLine(r.value, long, human, humanSize);
  }

  /** Line `k` of a listing from the start is the rendering of the `k`-th pointer's record. */
  lemma ListFromLine(ptrs: seq<nat>, decode: nat -> Result<Entry>, render: Entry -> string, k: nat)
    requires k < |ListFrom(ptrs, decode, render, 0).lines|
    ensures k < |ptrs| && decode(ptrs[k]).Ok?
    ensures ListFrom(ptrs, decode, render, 0).lines[k] == render(decode(ptrs[k]).value)
  {
    ListFromIsProjection(ptrs, decode, render, 0);
  }
}
