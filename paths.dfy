/** Lexical POSIX paths, as `pathlib.PurePosixPath` treats them: a root and a sequence of
    segments, joined with `/` and compared segment by segment, never resolved on a disk. */
module Paths {

  import opened WadTypes

  /** The root of a path: none (relative), `/`, or `//`, which POSIX lets an implementation
      treat specially and which is therefore kept apart (three or more slashes count as one). */
  datatype Root = NoRoot | Slash | DoubleSlash

  datatype PurePath = PurePath(root: Root, parts: seq<string>)

  /** The number of `/` characters a string starts with. */
  function LeadingSlashes(s: string): (n: nat)
    ensures n <= |s|
    ensures forall i :: 0 <= i < n ==> s[i] == '/'
    ensures n < |s| ==> s[n] != '/'
  {
    if s == [] || s[0] != '/' then 0 else 1 + LeadingSlashes(s[1..])
  }

  function RootOf(s: string): (r: Root)
    ensures r == NoRoot <==> (s == [] || s[0] != '/')
  {
    var n := LeadingSlashes(s);
    if n == 0 then NoRoot else if n == 2 then DoubleSlash else Slash
  }

  /** The pieces of a string between its `/` characters, empty pieces included. */
  function SplitSlash(s: string): (r: seq<string>)
    ensures |r| >= 1
    ensures forall i :: 0 <= i < |r| ==> '/' !in r[i]
  {
    if s == [] then [[]]
    else
      var rest := SplitSlash(s[1..]);
      if s[0] == '/' then [[]] + rest else [[s[0]] + rest[0]] + rest[1..]
  }

  /** The pieces joined back with `/` between them. */
  function JoinSlash(pieces: seq<string>): string
    requires |pieces| >= 1
  {
    if |pieces| == 1 then pieces[0] else pieces[0] + "/" + JoinSlash(pieces[1..])
  }

  /** Splitting at `/` loses nothing: joining the pieces gives the string back. */
  lemma {:induction false} SplitJoin(s: string)
    ensures JoinSlash(SplitSlash(s)) == s
  {
    if s != [] {
      var rest := SplitSlash(s[1..]);
      SplitJoin(s[1..]);
      if s[0] == '/' {
        assert SplitSlash(s) == [[]] + rest;
        assert s == [] + "/" + s[1..];
      } else {
        var r := SplitSlash(s);
        assert r[1..] == rest[1..];
        if |rest| == 1 {
          assert s == [s[0]] + s[1..];
        } else {
          assert JoinSlash(rest) == rest[0] + "/" + JoinSlash(rest[1..]);
          assert s == [s[0]] + s[1..];
        }
      }
    }
  }

  /** A string without `/` is a single piece. */
  lemma {:induction false} SplitPlain(s: string)
    requires '/' !in s
    ensures SplitSlash(s) == [s]
  {
    if s != [] {
      assert '/' !in s[1..] by {
        assert forall c :: c in s[1..] ==> c in s;
      }
      SplitPlain(s[1..]);
      assert [s[0]] + s[1..] == s;
    }
  }

  /** Splitting at a `/` whose left side holds no other `/`. */
  lemma {:induction false} SplitAtSlash(a: string, b: string)
    requires '/' !in a
    ensures SplitSlash(a + "/" + b) == [a] + SplitSlash(b)
  {
    var s := a + "/" + b;
    if a == [] {
      assert s == "/" + b;
      assert s[1..] == b;
    } else {
      assert s[1..] == a[1..] + "/" + b;
      assert '/' !in a[1..] by {
        assert forall c :: c in a[1..] ==> c in a;
      }
      SplitAtSlash(a[1..], b);
      assert [a[0]] + a[1..] == a;
    }
  }

  /** A segment as a parsed path holds it: not empty, not `.`, no `/`. */
  predicate NormalSegment(p: string) {
    p != "" && p != "." && '/' !in p
  }

  /** The segments that survive parsing: empty pieces (from repeated or trailing slashes) and
      `.` are dropped; `..` is kept, since a lexical path cannot know what it refers to. */
  function NormalParts(pieces: seq<string>): (r: seq<string>)
    requires forall i :: 0 <= i < |pieces| ==> '/' !in pieces[i]
    ensures forall i :: 0 <= i < |r| ==> NormalSegment(r[i])
    ensures forall p :: p in r ==> p in pieces
    ensures forall p :: p in pieces && NormalSegment(p) ==> p in r
  {
    if pieces == [] then []
    else
      var rest := NormalParts(pieces[1..]);
      assert forall p :: p in pieces[1..] ==> p in pieces;
      if pieces[0] == "" || pieces[0] == "." then rest else [pieces[0]] + rest
  }

  /** Parsing a single piece: an empty piece or `.` vanishes, anything else is kept. */
  lemma NormalPartsOfPiece(p: string)
    requires '/' !in p
    ensures NormalParts([p]) == if p == "" || p == "." then [] else [p]
  {
    assert [p][1..] == [];
  }

  /** Parsing works piece by piece, in order: the parts of two runs of pieces are the parts of
      the first followed by the parts of the second. With the single-piece case this pins the
      parts down as the order-keeping filter of the pieces. */
  lemma {:induction false} NormalPartsAppend(a: seq<string>, b: seq<string>)
    requires forall i :: 0 <= i < |a| ==> '/' !in a[i]
    requires forall i :: 0 <= i < |b| ==> '/' !in b[i]
    ensures NormalParts(a + b) == NormalParts(a) + NormalParts(b)
  {
    if a == [] {
      assert a + b == b;
    } else {
      assert (a + b)[0] == a[0];
      assert (a + b)[1..] == a[1..] + b;
      NormalPartsAppend(a[1..], b);
    }
  }

  /** Pieces that are all segments already are kept as they are. */
  lemma {:induction false} NormalPartsOfNormal(pieces: seq<string>)
    requires forall i :: 0 <= i < |pieces| ==> pieces[i] != "" && pieces[i] != "." && '/' !in pieces[i]
    ensures NormalParts(pieces) == pieces
  {
    if pieces != [] {
      NormalPartsOfNormal(pieces[1..]);
      assert [pieces[0]] + pieces[1..] == pieces;
    }
  }

  /** Parses a path string. */
  function ParsePath(s: string): (r: PurePath)
    ensures forall i :: 0 <= i < |r.parts| ==> NormalSegment(r.parts[i])
    ensures r.root == NoRoot <==> (s == [] || s[0] != '/')
  {
    PurePath(RootOf(s), NormalParts(SplitSlash(s)))
  }

  /** `a / b`: an absolute `b` replaces `a`, a relative one is appended to it. */
  function Join(a: PurePath, b: PurePath): (r: PurePath)
    ensures b.root != NoRoot ==> r == b
    ensures b.root == NoRoot ==> r.root == a.root && r.parts == a.parts + b.parts
  {
    if b.root != NoRoot then b else PurePath(a.root, a.parts + b.parts)
  }

  /** `dir in p.parents`: the parents of a path are the paths with its root and a strictly
      shorter prefix of its segments. */
  predicate IsParentOf(dir: PurePath, p: PurePath): (b: bool)
    ensures b <==> exists rest :: |rest| >= 1 && p == PurePath(dir.root, dir.parts + rest)
  {
    var b := dir.root == p.root && |dir.parts| < |p.parts| && p.parts[..|dir.parts|] == dir.parts;
    assert b ==> p.parts == dir.parts + p.parts[|dir.parts|..];
    b
  }

  /** The containment test on an entry path as written: `dest` must be a lexical parent of
      `dest / path`. */
  predicate ContainedAsWritten(dest: PurePath, path: string): (b: bool)
    ensures ParsePath(path).root == NoRoot ==> (b <==> |ParsePath(path).parts| >= 1)
    ensures ParsePath(path).root != NoRoot ==> (b <==> IsParentOf(dest, ParsePath(path)))
  {
    var target := Join(dest, ParsePath(path));
    assert ParsePath(path).root == NoRoot ==> target.parts[..|dest.parts|] == dest.parts;
    IsParentOf(dest, target)
  }

  // ---------------------------------------------------------------------------------------
  // Lexical resolution of `..`

  /** What a sequence of segments names once each `..` cancels the segment before it; a `..`
      with nothing left to cancel is kept, since it climbs above the starting point. */
  function Resolve(parts: seq<string>): (r: seq<string>)
    ensures |r| <= |parts|
  {
    if parts == [] then []
    else
      var acc := Resolve(parts[..|parts| - 1]);
      var last := parts[|parts| - 1];
      if last == ".." && |acc| > 0 && acc[|acc| - 1] != ".." then acc[..|acc| - 1]
      else acc + [last]
  }

  /** Segments without `..` are appended as they are: a path below a directory resolves
      below that directory. */
  lemma {:induction false} ResolveAppendPlain(a: seq<string>, k: seq<string>)
    requires ".." !in k
    ensures Resolve(a + k) == Resolve(a) + k
  {
    if k == [] {
      assert a + k == a;
    } else {
      var init := k[..|k| - 1];
      assert (a + k)[..|a + k| - 1] == a + init;
      assert (a + k)[|a + k| - 1] == k[|k| - 1];
      assert k[|k| - 1] in k;
      ResolveAppendPlain(a, init);
      assert Resolve(a + k) == Resolve(a + init) + [k[|k| - 1]];
      assert init + [k[|k| - 1]] == k;
    }
  }

  // ---------------------------------------------------------------------------------------
  // Where an entry is written

  /** A key below the destination: at least one segment, none of them `..`. */
  predicate SafeKey(key: seq<string>) {
    |key| >= 1 && ".." !in key && forall i :: 0 <= i < |key| ==> NormalSegment(key[i])
  }

  /** The segments below `dest` at which an entry path is written, or None when the entry must
      be refused: when `dest` is not a lexical parent of `dest / path`, and also (unlike the
      test as written) when the entry path has a `..` segment, which would climb out of `dest`
      once the file system resolves it. */
  function WriteKey(dest: PurePath, path: string): (r: Option<seq<string>>)
    ensures r.Some? <==> ContainedAsWritten(dest, path) && ".." !in ParsePath(path).parts
    ensures r.Some? ==> SafeKey(r.value)
    ensures r.Some? ==> Join(dest, ParsePath(path)) == PurePath(dest.root, dest.parts + r.value)
  {
    var target := Join(dest, ParsePath(path));
    if !IsParentOf(dest, target) || ".." in ParsePath(path).parts then None
    else
      var key := target.parts[|dest.parts|..];
      assert target.parts == dest.parts + key;
      assert forall p :: p in key ==> p in ParsePath(path).parts by {
        if ParsePath(path).root == NoRoot {
          assert key == ParsePath(path).parts;
        } else {
          assert key == ParsePath(path).parts[|dest.parts|..];
        }
      }
      Some(key)
  }

  /** An accepted entry stays inside the destination: once every `..` is resolved, the file
      lies below wherever `dest` itself resolves to. */
  lemma WriteKeyStaysInside(dest: PurePath, path: string)
    requires WriteKey(dest, path).Some?
    ensures var key := WriteKey(dest, path).value;
      Resolve(Join(dest, ParsePath(path)).parts) == Resolve(dest.parts) + key
  {
    ResolveAppendPlain(dest.parts, WriteKey(dest, path).value);
  }

  /** A relative entry path is accepted exactly when it names something (it has a segment
      left after parsing) and has no `..`, and it is then written at its own segments. An empty
      path is refused, and so is an absolute one when the destination is relative. */
  lemma RelativeEntries(dest: PurePath, path: string)
    ensures ParsePath(path).root == NoRoot ==>
      (WriteKey(dest, path).Some? <==> |ParsePath(path).parts| >= 1 && ".." !in ParsePath(path).parts)
    ensures ParsePath(path).root == NoRoot && WriteKey(dest, path).Some? ==>
      WriteKey(dest, path).value == ParsePath(path).parts
    ensures WriteKey(dest, "").None?
    ensures ParsePath(path).root != NoRoot && dest.root == NoRoot ==> WriteKey(dest, path).None?
  {
    var target := Join(dest, ParsePath(path));
    if ParsePath(path).root == NoRoot && WriteKey(dest, path).Some? {
      assert target.parts[|dest.parts|..] == ParsePath(path).parts;
    }
    assert ParsePath("").parts == [];
  }

  /** How an entry path `../name` parses: relative, a `..` and the name. */
  lemma ParseClimb(name: string)
    requires NormalSegment(name)
    ensures ParsePath("../" + name) == PurePath(NoRoot, ["..", name])
  {
    SplitPlain(name);
    SplitAtSlash("..", name);
    assert "../" + name == ".." + "/" + name;
    NormalPartsOfNormal(["..", name]);
  }

  /** The test as written lets `..` through: with destination `out`, an entry path such as
      `../escape.txt` passes it, yet `out/../escape.txt` resolves to `escape.txt`, outside
      `out`; the corrected test refuses it. */
  lemma EscapeAsWritten(name: string)
    requires NormalSegment(name) && name != ".."
    ensures var dest := PurePath(NoRoot, ["out"]);
      && ContainedAsWritten(dest, "../" + name)
      && Join(dest, ParsePath("../" + name)).parts == ["out", "..", name]
      && Resolve(["out", "..", name]) == [name]
      && Resolve(dest.parts) == ["out"]
      && WriteKey(dest, "../" + name).None?
  {
    ParseClimb(name);
    var target := ["out", "..", name];
    assert ["out"] + ["..", name] == target;
    assert target[..1] == ["out"];
    assert target[..2] == ["out", ".."];
    assert ["out", ".."][..1] == ["out"];
    assert Resolve(["out"]) == ["out"];
    assert Resolve(["out", ".."]) == [];
  }
}
