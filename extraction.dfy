/** Extracting a container into a destination directory: the destination must be an existing,
    empty directory; the entries are then visited in index order, entries without a body are
    skipped, and every other entry is written below the destination unless its path would land
    outside it, which stops the extraction at that entry. */
module Extraction {

  import opened Bytes
  import opened WadTypes
  import opened Records
  import opened Paths

  /** A place below the destination directory, as the segments leading to it. */
  type Key = seq<string>

  /** What the destination directory holds: files with their contents, and directories. */
  datatype Tree = Tree(files: map<Key, seq<byte>>, dirs: set<Key>)

  /** The state an extraction leaves behind: what the destination holds, and the error that
      stopped it, if any (earlier writes stay). */
  datatype Run = Run(tree: Tree, failure: Option<WadError>)

  /** The directories a file at `key` lives in, below the destination itself. */
  function Ancestors(key: Key): (r: set<Key>)
    ensures forall j :: 1 <= j < |key| ==> key[..j] in r
    ensures forall d :: d in r ==> 1 <= |d| < |key| && d == key[..|d|]
  {
    set j | 1 <= j < |key| :: key[..j]
  }

  /** A tree the file system can hold: every place lies below the destination, nothing is both a
      file and a directory, and everything sits in directories that exist. */
  ghost predicate ValidTree(t: Tree) {
    && (forall k :: k in t.files ==> SafeKey(k) && k !in t.dirs && Ancestors(k) <= t.dirs)
    && (forall d :: d in t.dirs ==> SafeKey(d) && Ancestors(d) <= t.dirs)
  }

  /** Writes a file at `key` after creating the directories it lives in (`mkdir` with parents,
      existing ones accepted). This fails when one of those directories exists as a file, or
      when `key` itself is a directory; otherwise the file is created or overwritten. */
  function Write(t: Tree, key: Key, body: seq<byte>): (r: Result<Tree>)
    ensures r.Err? <==> key in t.dirs || exists d :: d in Ancestors(key) && d in t.files
    ensures r.Ok? ==> key in r.value.files && r.value.files[key] == body
    ensures r.Ok? ==> forall k :: k != key ==> (k in r.value.files <==> k in t.files)
    ensures r.Ok? ==> forall k :: k != key && k in t.files ==> r.value.files[k] == t.files[k]
    ensures r.Ok? ==> r.value.dirs == t.dirs + Ancestors(key)
  {
    if key in t.dirs || Ancestors(key) * t.files.Keys != {} then Err(WriteFailed(key))
    else
      assert forall d :: d in Ancestors(key) ==> d !in Ancestors(key) * t.files.Keys;
      Ok(Tree(t.files[key := body], t.dirs + Ancestors(key)))
  }

  /** A write at a key below the destination keeps the tree one the file system can hold. */
  lemma WritePreservesValid(t: Tree, key: Key, body: seq<byte>)
    requires ValidTree(t) && SafeKey(key) && Write(t, key, body).Ok?
    ensures ValidTree(Write(t, key, body).value)
  {
    var u := Write(t, key, body).value;
    forall d | d in Ancestors(key)
      ensures SafeKey(d) && Ancestors(d) <= u.dirs
    {
      assert forall i :: 0 <= i < |d| ==> d[i] == key[i];
      assert forall p :: p in d ==> p in key;
      forall e | e in Ancestors(d) ensures e in u.dirs {
        assert e == key[..|e|];
      }
    }
    forall k | k in u.files
      ensures SafeKey(k) && k !in u.dirs && Ancestors(k) <= u.dirs
    {
      if k != key {
        assert k !in Ancestors(key);
      }
    }
  }

  /** Whether the decoded entry `r` is written at `key` with contents `body`. */
  predicate Writes(dest: PurePath, r: Result<Entry>, key: Key, body: seq<byte>) {
    r.Ok? && r.value.body == Some(body) && WriteKey(dest, r.value.path) == Some(key)
  }

  /** Whether the decoded entry `r` is written at `key`, with whatever contents. */
  predicate WritesTo(dest: PurePath, r: Result<Entry>, key: Key) {
    r.Ok? && r.value.body.Some? && WriteKey(dest, r.value.path) == Some(key)
  }

  /** One pass of the loop on a decoded entry: a decoding error stops; an entry without a body is
      skipped; an entry whose path would land outside the destination stops; any other entry is
      written, and a failed write stops. */
  function Visit(dest: PurePath, r: Result<Entry>, t: Tree): (run: Run)
    ensures run.failure.Some? ==> run.tree == t
    ensures r.Err? ==> run.failure == Some(r.error)
    ensures r.Ok? && r.value.body.None? ==> run == Run(t, None)
    ensures r.Ok? && r.value.body.Some? && WriteKey(dest, r.value.path).None? ==>
      run.failure == Some(PathEscapes(r.value.path))
    ensures r.Ok? && r.value.body.Some? && WriteKey(dest, r.value.path).Some? ==>
      var write := Write(t, WriteKey(dest, r.value.path).value, r.value.body.value);
      && (run.failure.None? <==> write.Ok?)
      && (write.Ok? ==> run.tree == write.value)
      && (write.Err? ==> run.failure == Some(write.error))
    ensures run.failure.None? && r.Ok? && r.value.body.Some? ==>
      exists key :: Writes(dest, r, key, r.value.body.value) && Write(t, key, r.value.body.value) == Ok(run.tree)
  {
    match r
    case Err(e) => Run(t, Some(e))
    case Ok(entry) =>
      if entry.body.None? then Run(t, None)
      else
        match WriteKey(dest, entry.path)
        case None => Run(t, Some(PathEscapes(entry.path)))
        case Some(key) =>
          match Write(t, key, entry.body.value)
          case Err(e) => Run(t, Some(e))
          case Ok(u) => Run(u, None)
  }

  /** The loop over the entry pointers `ptrs`, each decoded by `decode`, from the tree `t0`:
      the first pass that fails ends it. */
  function Steps(dest: PurePath, ptrs: seq<nat>, decode: nat -> Result<Entry>, t0: Tree): (run: Run)
    ensures run.failure.None? ==> forall i :: 0 <= i < |ptrs| ==> decode(ptrs[i]).Ok?
  {
    if ptrs == [] then Run(t0, None)
    else
      var m := |ptrs| - 1;
      var prev := Steps(dest, ptrs[..m], decode, t0);
      assert forall i :: 0 <= i < m ==> ptrs[..m][i] == ptrs[i];
      if prev.failure.Some? then prev else Visit(dest, decode(ptrs[m]), prev.tree)
  }

  /** How an extraction decodes a pointer: the record with its body when `sel` asks for it. */
  function Decoder(wad: Wad, sel: Selector): nat -> Result<Entry> {
    (p: nat) => ReadWadEntry(wad, p, sel)
  }

  /** Extracts `wad` into a destination that is a directory when `isDir` holds and holds `t0`:
      the destination is checked first, then the entries are visited in index order. */
  function Extract(wad: Wad, dest: PurePath, sel: Selector, isDir: bool, t0: Tree): (run: Run)
    ensures !isDir || t0.files != map[] || t0.dirs != {} ==> run.failure.Some? && run.tree == t0
    ensures run.failure.None? ==> isDir && t0.files == map[] && t0.dirs == {}
  {
    if !isDir then Run(t0, Some(NotADirectory))
    else if t0.files != map[] || t0.dirs != {} then Run(t0, Some(NotEmpty))
    else Steps(dest, wad.entryPointers, Decoder(wad, sel), t0)
  }

  // ---------------------------------------------------------------------------------------
  // Properties of the loop

  /** Once a pass fails, the later entries change nothing. */
  lemma {:induction false} FailureIsFinal(dest: PurePath, ptrs: seq<nat>, decode: nat -> Result<Entry>, t0: Tree, n: nat)
    requires n <= |ptrs| && Steps(dest, ptrs[..n], decode, t0).failure.Some?
    ensures Steps(dest, ptrs, decode, t0) == Steps(dest, ptrs[..n], decode, t0)
    decreases |ptrs|
  {
    if n == |ptrs| {
      assert ptrs[..n] == ptrs;
    } else {
      var init := ptrs[..|ptrs| - 1];
      assert init[..n] == ptrs[..n];
      FailureIsFinal(dest, init, decode, t0, n);
    }
  }

  /** A run without failure met no refused path: every entry with a body had its path accepted. */
  lemma {:induction false} NoRefusedPath(dest: PurePath, ptrs: seq<nat>, decode: nat -> Result<Entry>, t0: Tree, j: nat)
    requires Steps(dest, ptrs, decode, t0).failure.None?
    requires j < |ptrs| && decode(ptrs[j]).Ok? && decode(ptrs[j]).value.body.Some?
    ensures WriteKey(dest, decode(ptrs[j]).value.path).Some?
  {
    var m := |ptrs| - 1;
    assert Steps(dest, ptrs[..m], decode, t0).failure.None?;
    if j < m {
      assert ptrs[..m][j] == ptrs[j];
      NoRefusedPath(dest, ptrs[..m], decode, t0, j);
    }
  }

  /** An entry with a body whose path is refused stops the run with that path's error, after the
      entries before it; the destination keeps what they wrote. */
  lemma RefusedPathStops(dest: PurePath, ptrs: seq<nat>, decode: nat -> Result<Entry>, t0: Tree, j: nat)
    requires j < |ptrs| && Steps(dest, ptrs[..j], decode, t0).failure.None?
    requires decode(ptrs[j]).Ok? && decode(ptrs[j]).value.body.Some?
    requires WriteKey(dest, decode(ptrs[j]).value.path).None?
    ensures Steps(dest, ptrs, decode, t0)
      == Run(Steps(dest, ptrs[..j], decode, t0).tree, Some(PathEscapes(decode(ptrs[j]).value.path)))
  {
    assert ptrs[..j + 1][..j] == ptrs[..j];
    assert ptrs[..j + 1][j] == ptrs[j];
    FailureIsFinal(dest, ptrs, decode, t0, j + 1);
  }

  /** A failed extraction stopped at one entry: every entry before it passed, the destination
      holds exactly what they wrote, and the failure is that entry's. */
  lemma {:induction false} StopsAtFirstFailure(dest: PurePath, ptrs: seq<nat>, decode: nat -> Result<Entry>, t0: Tree)
    requires Steps(dest, ptrs, decode, t0).failure.Some?
    ensures exists n ::
      && 0 <= n < |ptrs|
      && Steps(dest, ptrs[..n], decode, t0).failure.None?
      && Steps(dest, ptrs, decode, t0).tree == Steps(dest, ptrs[..n], decode, t0).tree
      && Visit(dest, decode(ptrs[n]), Steps(dest, ptrs[..n], decode, t0).tree).failure
           == Steps(dest, ptrs, decode, t0).failure
  {
    var m := |ptrs| - 1;
    var init := ptrs[..m];
    if Steps(dest, init, decode, t0).failure.Some? {
      StopsAtFirstFailure(dest, init, decode, t0);
      var n :| && 0 <= n < |init|
               && Steps(dest, init[..n], decode, t0).failure.None?
               && Steps(dest, init, decode, t0).tree == Steps(dest, init[..n], decode, t0).tree
               && Visit(dest, decode(init[n]), Steps(dest, init[..n], decode, t0).tree).failure
                    == Steps(dest, init, decode, t0).failure;
      assert init[..n] == ptrs[..n];
    } else {
      assert ptrs[..m] == init;
    }
  }

  /** The destination stays a tree the file system can hold. */
  lemma {:induction false} StepsPreserveValid(dest: PurePath, ptrs: seq<nat>, decode: nat -> Result<Entry>, t0: Tree)
    requires ValidTree(t0)
    ensures ValidTree(Steps(dest, ptrs, decode, t0).tree)
  {
    if ptrs != [] {
      var prev := Steps(dest, ptrs[..|ptrs| - 1], decode, t0);
      StepsPreserveValid(dest, ptrs[..|ptrs| - 1], decode, t0);
      if prev.failure.None? {
        var r := decode(ptrs[|ptrs| - 1]);
        var run := Visit(dest, r, prev.tree);
        if run.failure.None? && r.Ok? && r.value.body.Some? {
          var key :| Writes(dest, r, key, r.value.body.value) && Write(prev.tree, key, r.value.body.value) == Ok(run.tree);
          WritePreservesValid(prev.tree, key, r.value.body.value);
        }
      }
    }
  }

  /** Every file in the destination was there before or was written by one of the entries, at
      the place its path names and with its body as contents. */
  lemma {:induction false} EveryFileFromAnEntry(dest: PurePath, ptrs: seq<nat>, decode: nat -> Result<Entry>, t0: Tree)
    ensures var files := Steps(dest, ptrs, decode, t0).tree.files;
      forall key :: key in files ==>
        key in t0.files || exists j :: 0 <= j < |ptrs| && Writes(dest, decode(ptrs[j]), key, files[key])
  {
    if ptrs != [] {
      var m := |ptrs| - 1;
      var prev := Steps(dest, ptrs[..m], decode, t0);
      EveryFileFromAnEntry(dest, ptrs[..m], decode, t0);
      var files := Steps(dest, ptrs, decode, t0).tree.files;
      forall key | key in files && key !in t0.files
        ensures exists j :: 0 <= j < |ptrs| && Writes(dest, decode(ptrs[j]), key, files[key])
      {
        var r := decode(ptrs[m]);
        if prev.failure.None? && r.Ok? && r.value.body.Some? && Visit(dest, r, prev.tree).failure.None?
           && WriteKey(dest, r.value.path) == Some(key) {
          assert Writes(dest, decode(ptrs[m]), key, files[key]);
        } else {
          assert key in prev.tree.files && files[key] == prev.tree.files[key];
          var j :| 0 <= j < m && Writes(dest, decode(ptrs[..m][j]), key, files[key]);
          assert ptrs[..m][j] == ptrs[j];
        }
      }
    }
  }

  /** Last write wins: after a successful run, the file at a key holds the body of the last
      entry written there. */
  lemma {:induction false} LastWriteWins(dest: PurePath, ptrs: seq<nat>, decode: nat -> Result<Entry>, t0: Tree, key: Key, j: nat)
    requires Steps(dest, ptrs, decode, t0).failure.None?
    requires j < |ptrs| && WritesTo(dest, decode(ptrs[j]), key)
    requires forall i :: j < i < |ptrs| ==> !WritesTo(dest, decode(ptrs[i]), key)
    ensures var files := Steps(dest, ptrs, decode, t0).tree.files;
      key in files && files[key] == decode(ptrs[j]).value.body.value
  {
    var m := |ptrs| - 1;
    var prev := Steps(dest, ptrs[..m], decode, t0);
    var r := decode(ptrs[m]);
    assert prev.failure.None?;
    if j < m {
      forall i | j < i < |ptrs[..m]| ensures !WritesTo(dest, decode(ptrs[..m][i]), key) {
        assert ptrs[..m][i] == ptrs[i];
      }
      assert ptrs[..m][j] == ptrs[j];
      LastWriteWins(dest, ptrs[..m], decode, t0, key, j);
    }
  }

  /** Nothing selected is lost: after a successful run, every entry that has a body has a file
      at the place its path names. */
  lemma {:induction false} EveryWriterLands(dest: PurePath, ptrs: seq<nat>, decode: nat -> Result<Entry>, t0: Tree, key: Key, j: nat)
    requires Steps(dest, ptrs, decode, t0).failure.None?
    requires j < |ptrs| && WritesTo(dest, decode(ptrs[j]), key)
    ensures key in Steps(dest, ptrs, decode, t0).tree.files
  {
    var m := |ptrs| - 1;
    var prev := Steps(dest, ptrs[..m], decode, t0);
    assert prev.failure.None?;
    if j < m && !WritesTo(dest, decode(ptrs[m]), key) {
      assert ptrs[..m][j] == ptrs[j];
      EveryWriterLands(dest, ptrs[..m], decode, t0, key, j);
    }
  }

  // ---------------------------------------------------------------------------------------
  // Properties of an extraction

  /** The destination is checked before any entry is looked at. */
  lemma ExtractChecksDestination(wad: Wad, dest: PurePath, sel: Selector, isDir: bool, t0: Tree)
    ensures !isDir ==> Extract(wad, dest, sel, isDir, t0) == Run(t0, Some(NotADirectory))
    ensures isDir && (t0.files != map[] || t0.dirs != {}) ==>
      Extract(wad, dest, sel, isDir, t0) == Run(t0, Some(NotEmpty))
  {
  }

  /** An extraction leaves a tree the file system can hold, all of it below the destination. */
  lemma ExtractPreservesValid(wad: Wad, dest: PurePath, sel: Selector, isDir: bool, t0: Tree)
    requires ValidTree(t0)
    ensures ValidTree(Extract(wad, dest, sel, isDir, t0).tree)
  {
    StepsPreserveValid(dest, wad.entryPointers, Decoder(wad, sel), t0);
  }

  /** Every extracted file comes from an entry the selector asked for, written at the place its
      path names below the destination, with that entry's body. */
  lemma ExtractedFilesAreSelectedEntries(wad: Wad, dest: PurePath, sel: Selector, isDir: bool, t0: Tree)
    requires isDir && t0 == Tree(map[], {})
    ensures var files := Extract(wad, dest, sel, isDir, t0).tree.files;
      forall key :: key in files ==>
        exists j :: 0 <= j < |wad.entryPointers| &&
          (var r := ReadWadEntry(wad, wad.entryPointers[j], sel);
           Writes(dest, r, key, files[key]) && ReadsBody(sel, r.value.path, r.value.size))
  {
    var decode := Decoder(wad, sel);
    EveryFileFromAnEntry(dest, wad.entryPointers, decode, t0);
    var files := Extract(wad, dest, sel, isDir, t0).tree.files;
    forall key | key in files
      ensures exists j ::
        0 <= j < |wad.entryPointers| &&
        (var r := ReadWadEntry(wad, wad.entryPointers[j], sel);
         Writes(dest, r, key, files[key]) && ReadsBody(sel, r.value.path, r.value.size))
    {
      var j :| 0 <= j < |wad.entryPointers| && Writes(dest, decode(wad.entryPointers[j]), key, files[key]);
      assert decode(wad.entryPointers[j]) == ReadWadEntry(wad, wad.entryPointers[j], sel);
    }
  }

  // ---------------------------------------------------------------------------------------
  // The destination directory, updated in place

  /** The destination directory on disk: whether it is a directory, and what it holds. */
  class Destination {
    var isDirectory: bool
    var files: map<Key, seq<byte>>
    var dirs: set<Key>

    function Contents(): Tree
      reads this
    {
      Tree(files, dirs)
    }

    constructor(isDirectory: bool, contents: Tree)
      ensures this.isDirectory == isDirectory && Contents() == contents
    {
      this.isDirectory := isDirectory;
      this.files := contents.files;
      this.dirs := contents.dirs;
    }

    /** Creates the directories `key` lives in and writes the file at `key`, or reports why
        that fails and changes nothing. */
    method WriteFile(key: Key, body: seq<byte>) returns (failure: Option<WadError>)
      modifies this
      ensures isDirectory == old(isDirectory)
      ensures failure.None? <==> Write(old(Contents()), key, body).Ok?
      ensures failure.None? ==> Contents() == Write(old(Contents()), key, body).value
      ensures failure.Some? ==> Contents() == old(Contents()) && failure == Some(Write(old(Contents()), key, body).error)
    {
      if key in dirs || Ancestors(key) * files.Keys != {} {
        return Some(WriteFailed(key));
      }
      dirs := dirs + Ancestors(key);
      files := files[key := body];
      return None;
    }

    /** Extracts `wad` below `dest`, reading a record's body when `sel` asks for it. */
    method ExtractWad(wad: Wad, dest: PurePath, sel: Selector) returns (failure: Option<WadError>)
      modifies this
      ensures isDirectory == old(isDirectory)
      ensures Run(Contents(), failure) == Extract(wad, dest, sel, old(isDirectory), old(Contents()))
    {
      if !isDirectory {
        return Some(NotADirectory);
      }
      if files != map[] || dirs != {} {
        return Some(NotEmpty);
      }
      ghost var t0 := Contents();
      ghost var decode := Decoder(wad, sel);
      var ptrs := wad.entryPointers;
      var i := 0;
      while i < |ptrs|
        invariant 0 <= i <= |ptrs|
        invariant isDirectory == old(isDirectory)
        invariant Steps(dest, ptrs[..i], decode, t0) == Run(Contents(), None)
      {
        var r := ReadWadEntry(wad, ptrs[i], sel);
        assert ptrs[..i + 1][..i] == ptrs[..i];
        assert decode(ptrs[i]) == r;
        match r {
          case Err(e) =>
            FailureIsFinal(dest, ptrs, decode, t0, i + 1);
            return Some(e);
          case Ok(entry) =>
            if entry.body.Some? {
              var key := WriteKey(dest, entry.path);
              if key.None? {
                FailureIsFinal(dest, ptrs, decode, t0, i + 1);
                return Some(PathEscapes(entry.path));
              }
              failure := WriteFile(key.value, entry.body.value);
              if failure.Some? {
                FailureIsFinal(dest, ptrs, decode, t0, i + 1);
                return failure;
              }
            }
        }
        i := i + 1;
      }
      assert ptrs[..i] == ptrs;
      return None;
    }
  }
}
