/**
 * `RelocateResourceTask`: unpacks a zip of sources into a directory, moving every
 * path and text from one group (package) to another. Class files are copied as they
 * are, and the mixin refmap keeps its path.
 */
module RelocateResourceTask {
  import opened Wrappers
  import opened JavaStrings
  import opened JavaIo

  /** A path split into its last segment and the segments before it. */
  datatype FileData = FileData(fileName: string, directory: string)

  /**
   * `FileData.create`. `name.split("/")` drops trailing empty segments, so a name made
   * of slashes alone leaves no segment and indexing it throws: that case is none.
   */
  function CreateFileData(name: string): (r: Option<FileData>)
    ensures !EndsWith(name, "/") ==> r.Some?
  {
    if !EndsWith(name, "/") then SplitNonEmpty(name, '/'); CreateFileDataOf(name) else CreateFileDataOf(name)
  }

  function CreateFileDataOf(name: string): Option<FileData> {
    var split := Split(name, '/');
    if |split| == 0 then None
    else Some(FileData(split[|split| - 1], if |split| == 1 then "" else Join(split[..|split| - 1], '/')))
  }

  /** The bytes `readBytes` collects: everything before the first zero byte or the end. */
  function UntilZero(b: Bytes): Bytes
  {
    if |b| == 0 then []
    else if b[0] == 0 then []
    else [b[0]] + UntilZero(b[1..])
  }

  /** `readBytes`: reads until `read()` gives 0 or -1; the zero byte is consumed. */
  method ReadBytes(stream: InputStream) returns (r: Bytes)
    requires stream.Valid()
    modifies stream
    ensures stream.Valid() && stream.data == old(stream.data)
    ensures r == UntilZero(stream.data[old(stream.pos)..])
    ensures stream.pos == old(stream.pos) + |r| + (if old(stream.pos) + |r| < |stream.data| then 1 else 0)
  {
    r := [];
    ghost var start := stream.pos;
    while true
      invariant stream.Valid() && start <= stream.pos && stream.data == old(stream.data)
      invariant r == stream.data[start..stream.pos] && 0 !in r
      decreases |stream.data| - stream.pos
    {
      ghost var at := stream.pos;
      var len := stream.Read();
      if len <= 0 {
        assert stream.data[start..][..|r|] == r;
        UntilZeroIs(stream.data[start..], r);
        return;
      }
      assert stream.data[start..stream.pos] == r + [len as Byte];
      r := r + [len as Byte];
    }
  }

  /** The collected bytes are the longest prefix of the data without a zero byte. */
  lemma {:induction false} UntilZeroBounds(b: Bytes)
    ensures var r := UntilZero(b); |r| <= |b| && r == b[..|r|] && 0 !in r
    ensures var r := UntilZero(b); |r| < |b| ==> b[|r|] == 0
    decreases |b|
  {
    if |b| > 0 && b[0] != 0 {
      UntilZeroBounds(b[1..]);
    }
  }

  /** `UntilZero` is characterised by its three properties: the longest zero-free prefix. */
  lemma {:induction false} UntilZeroIs(b: Bytes, r: Bytes)
    requires |r| <= |b| && r == b[..|r|] && 0 !in r
    requires |r| == |b| || b[|r|] == 0
    ensures UntilZero(b) == r
    decreases |r|
  {
    if |r| > 0 {
      assert b[0] == r[0];
      assert b[1..][..|r| - 1] == r[1..];
      UntilZeroIs(b[1..], r[1..]);
    }
  }

  /** No call names a directory. */
  predicate NamesFiles(calls: seq<(string, Bytes)>) {
    forall i :: 0 <= i < |calls| ==> !EndsWith(calls[i].0, "/")
  }

  /** The (name, bytes) pairs `forEachEntry` hands to its action: one per file entry, in order. */
  function Calls(es: seq<Entry>): (calls: seq<(string, Bytes)>)
    ensures NamesFiles(calls)
  {
    if |es| == 0 then []
    else
      var last := es[|es| - 1];
      Calls(es[..|es| - 1]) + (if IsDirectory(last) then [] else [(last.name, UntilZero(last.data))])
  }

  /** `forEachEntry`, returning the arguments of the action's calls. */
  method ForEachEntry(stream: ZipInputStream) returns (calls: seq<(string, Bytes)>)
    requires stream.Valid()
    modifies stream, stream.body
    ensures stream.Valid()
    ensures calls == Calls(stream.entries[old(stream.next)..])
  {
    calls := [];
    ghost var start := stream.next;
    while true
      invariant stream.Valid() && start <= stream.next
      invariant calls == CallsBetween(stream.entries, start, stream.next)
      decreases |stream.entries| - stream.next
    {
      var entry := stream.GetNextEntry();
      if entry.None? {
        CallsBetweenSlice(stream.entries, start, stream.next);
        assert stream.entries[start..stream.next] == stream.entries[start..];
        return;
      }
      var e := entry.value;
      if !IsDirectory(e) {
        assert stream.body.data[0..] == e.data;
        var bos := ReadBytes(stream.body);
        calls := calls + [(e.name, bos)];
      }
    }
  }

  /** The calls for the entries from index `i` up to `j`, counted by index. */
  ghost function CallsBetween(es: seq<Entry>, i: nat, j: nat): seq<(string, Bytes)>
    requires i <= j <= |es|
    decreases j - i
  {
    if j == i then []
    else
      var last := es[j - 1];
      CallsBetween(es, i, j - 1) + (if IsDirectory(last) then [] else [(last.name, UntilZero(last.data))])
  }

  lemma {:induction false} CallsBetweenSlice(es: seq<Entry>, i: nat, j: nat)
    requires i <= j <= |es|
    ensures CallsBetween(es, i, j) == Calls(es[i..j])
    decreases j - i
  {
    if j > i {
      CallsBetweenSlice(es, i, j - 1);
      var s := es[i..j];
      assert s[..|s| - 1] == es[i..j - 1] && s[|s| - 1] == es[j - 1];
    }
  }

  /** The mixin refmap, whose contents use internal (slashed) names. */
  const REFMAP: string := "regutils.refmap.json"

  /** A change to the output directory. */
  datatype Op = Delete(path: string) | Write(path: string, data: Bytes)

  /** The refmap's path: its directory and name as they were. */
  function RefmapPath(fd: FileData): string {
    if fd.directory == "" then fd.fileName else fd.directory + "/" + fd.fileName
  }

  /**
   * The relocated path: the group replaced in the file name, and in the directory
   * read as a dotted package, which is turned back into a path by `.` -> `/`.
   */
  function RelocatedPath(fd: FileData, fromGroup: string, toGroup: string): string {
    var relocatedName := ReplaceAll(fd.fileName, fromGroup, toGroup);
    if fd.directory == "" then relocatedName
    else Slashed(ReplaceAll(ReplaceChar(fd.directory, '/', '.'), fromGroup, toGroup)) + "/" + relocatedName
  }

  /** What the action of `relocate` does with one file entry. */
  function EntryOps(name: string, data: Bytes, fd: FileData, fromGroup: string, toGroup: string,
                    extra: (string, FileData) -> string): seq<Op>
  {
    if fd.fileName == REFMAP then
      [Write(RefmapPath(fd), Encode(ReplaceAll(Decode(data), Slashed(fromGroup), Slashed(toGroup))))]
    else
      var path := RelocatedPath(fd, fromGroup, toGroup);
      if EndsWith(fd.fileName, ".class") then [Delete(path), Write(name, data)]
      else [Delete(path), Write(path, Encode(extra(ReplaceAll(Decode(data), fromGroup, toGroup), fd)))]
  }

  /** Applies changes in order; the first write at a failing path throws and stops. */
  function ApplyOps(files: map<string, Bytes>, failing: set<string>, ops: seq<Op>): (bool, map<string, Bytes>)
    decreases |ops|
  {
    if ops == [] then (true, files)
    else match ops[0]
      case Delete(p) => ApplyOps(files - {p}, failing, ops[1..])
      case Write(p, d) => if p in failing then (false, files) else ApplyOps(files[p := d], failing, ops[1..])
  }

  /** `relocate` over the action calls: false as soon as an IOException is thrown. */
  function RelocateAll(files: map<string, Bytes>, failing: set<string>, calls: seq<(string, Bytes)>,
                       fromGroup: string, toGroup: string, extra: (string, FileData) -> string): (bool, map<string, Bytes>)
    requires NamesFiles(calls)
    decreases |calls|
  {
    if calls == [] then (true, files)
    else
      var (ok, next) := ApplyOps(files, failing, EntryOps(calls[0].0, calls[0].1, CreateFileData(calls[0].0).value,
                                                           fromGroup, toGroup, extra));
      if !ok then (false, next) else RelocateAll(next, failing, calls[1..], fromGroup, toGroup, extra)
  }

  /** The action for one entry. */
  method Action(output: FileTree, name: string, data: Bytes, fromGroup: string, toGroup: string,
                extra: (string, FileData) -> string) returns (ok: bool)
    requires !EndsWith(name, "/")
    modifies output
    ensures (ok, output.files) == ApplyOps(old(output.files), output.failing,
              EntryOps(name, data, CreateFileData(name).value, fromGroup, toGroup, extra))
  {
    var fileData := CreateFileData(name).value;
    if fileData.fileName == REFMAP {
      var text := Encode(ReplaceAll(Decode(data), Slashed(fromGroup), Slashed(toGroup)));
      ghost var before := output.files;
      ok := output.Write(RefmapPath(fileData), text);
      ghost var ops := [Write(RefmapPath(fileData), text)];
      assert ops[1..] == [];
      assert EntryOps(name, data, fileData, fromGroup, toGroup, extra) == ops;
      assert ApplyOps(before, output.failing, ops) == (ok, output.files);
      return;
    }
    var path := RelocatedPath(fileData, fromGroup, toGroup);
    ghost var before := output.files;
    output.Delete(path);
    if EndsWith(fileData.fileName, ".class") {
      ok := output.Write(name, data);
      ghost var ops := [Delete(path), Write(name, data)];
      assert ops[1..] == [Write(name, data)] && ops[1..][1..] == [];
      assert EntryOps(name, data, fileData, fromGroup, toGroup, extra) == ops;
      assert ApplyOps(before, output.failing, ops) == ApplyOps(before - {path}, output.failing, ops[1..]);
      assert ApplyOps(before - {path}, output.failing, ops[1..]) == (ok, output.files);
    } else {
      var text := Encode(extra(ReplaceAll(Decode(data), fromGroup, toGroup), fileData));
      ok := output.Write(path, text);
      ghost var ops := [Delete(path), Write(path, text)];
      assert ops[1..] == [Write(path, text)] && ops[1..][1..] == [];
      assert EntryOps(name, data, fileData, fromGroup, toGroup, extra) == ops;
      assert ApplyOps(before, output.failing, ops) == ApplyOps(before - {path}, output.failing, ops[1..]);
      assert ApplyOps(before - {path}, output.failing, ops[1..]) == (ok, output.files);
    }
  }

  /** `relocate` with an extra replace function over the output directory. */
  method Relocate(input: ZipInputStream, output: FileTree, fromGroup: string, toGroup: string,
                  extra: (string, FileData) -> string) returns (ok: bool)
    requires input.Valid()
    modifies input, input.body, output
    ensures (ok, output.files) == RelocateAll(old(output.files), output.failing, Calls(old(input.entries[input.next..])),
                                        fromGroup, toGroup, extra)
  {
    var calls := ForEachEntry(input);
    var i := 0;
    while i < |calls|
      invariant 0 <= i <= |calls|
      invariant RelocateAll(old(output.files), output.failing, calls, fromGroup, toGroup, extra)
             == RelocateAll(output.files, output.failing, calls[i..], fromGroup, toGroup, extra)
    {
      assert calls[i..][1..] == calls[i + 1..];
      ok := Action(output, calls[i].0, calls[i].1, fromGroup, toGroup, extra);
      if !ok {
        return false;
      }
      i := i + 1;
    }
    ok := true;
  }

  /** `relocate` without an extra replace function. */
  method RelocatePlain(input: ZipInputStream, output: FileTree, fromGroup: string, toGroup: string)
    returns (ok: bool)
    requires input.Valid()
    modifies input, input.body, output
    ensures (ok, output.files) == RelocateAll(old(output.files), output.failing, Calls(old(input.entries[input.next..])),
                                        fromGroup, toGroup, (s, fd) => s)
  {
    ok := Relocate(input, output, fromGroup, toGroup, (s, fd) => s);
  }

  // ---------------------------------------------------------------------------
  // Properties

  /** The file name is the last segment, so it has no '/'. */
  lemma FileNameHasNoSlash(name: string)
    ensures CreateFileData(name).Some? ==> '/' !in CreateFileData(name).value.fileName
  {
    var split := Split(name, '/');
    if '/' in name {
      SegmentsHaveNoSeparator(name, '/');
      var parts := Segments(name, '/');
      assert split == parts[..|split|];
      if |split| > 0 {
        assert split[|split| - 1] == parts[|split| - 1];
      }
    }
  }

  /** A name without '/' is all file name, with an empty directory. */
  lemma FileDataWithoutSlash(name: string)
    requires '/' !in name
    ensures CreateFileData(name) == Some(FileData(name, ""))
  {
  }

  /** A name with a '/' and no trailing '/' is its directory, a '/', and its file name. */
  lemma {:induction false} FileDataRejoins(name: string)
    requires '/' in name && !EndsWith(name, "/")
    ensures CreateFileData(name).Some?
    ensures var fd := CreateFileData(name).value;
      fd.directory + "/" + fd.fileName == name &&
      fd.directory == name[..LastIndexOf(name, '/')] && fd.fileName == name[LastIndexOf(name, '/') + 1..]
  {
    var k := LastIndexOf(name, '/');
    assert k >= 0 by {
      var j :| 0 <= j < |name| && name[j] == '/';
    }
    var parts := Segments(name, '/');
    assert parts == Segments(name[..k], '/') + [name[k + 1..]];
    assert name[|name| - 1..] == [name[|name| - 1]];
    assert parts[|parts| - 1] != "";
    assert Split(name, '/') == parts;
    assert parts[..|parts| - 1] == Segments(name[..k], '/');
    JoinSegments(name[..k], '/');
    assert name == name[..k] + "/" + name[k + 1..];
  }

  /** A name of slashes alone has no file data. */
  lemma FileDataOfSlash()
    ensures CreateFileData("/").None?
  {
    assert LastIndexOf("/", '/') == 0;
    assert "/"[..0] == "" && "/"[1..] == "";
    assert Segments("", '/') == [""];
    assert Segments("/", '/') == [""] + [""];
  }

  /** `forEachEntry` is called once per entry, in order: it distributes over concatenation. */
  lemma {:induction false} CallsConcat(a: seq<Entry>, b: seq<Entry>)
    ensures Calls(a + b) == Calls(a) + Calls(b)
    decreases |b|
  {
    if |b| == 0 {
      assert a + b == a;
    } else {
      var n := |b| - 1;
      assert (a + b)[..|a + b| - 1] == a + b[..n];
      CallsConcat(a, b[..n]);
    }
  }

  /** One entry gives one call, unless it is a directory, which gives none. */
  lemma CallsOfOne(e: Entry)
    ensures Calls([e]) == if IsDirectory(e) then [] else [(e.name, UntilZero(e.data))]
  {
    assert [e][..0] == [];
  }

  /** A refmap named with a leading '/' has an empty directory, so it is written without one. */
  lemma RefmapWithLeadingSlash()
    ensures CreateFileData("/" + REFMAP) == Some(FileData(REFMAP, ""))
    ensures RefmapPath(CreateFileData("/" + REFMAP).value) == REFMAP
  {
    FileDataOfJoin("", REFMAP);
    assert "" + "/" + REFMAP == "/" + REFMAP;
  }

  /**
   * A class file entry of the stream is written last, under its own name, with the bytes
   * `readBytes` gave it: its data up to the first zero byte, so shorter than its data
   * whenever the data holds a zero byte.
   */
  lemma ClassEntryWrittenCut(e: Entry, fromGroup: string, toGroup: string,
                             extra: (string, FileData) -> string, files: map<string, Bytes>, failing: set<string>)
    requires !IsDirectory(e)
    requires EndsWith(CreateFileData(e.name).value.fileName, ".class")
    ensures Calls([e]) == [(e.name, UntilZero(e.data))]
    ensures
      var ops := EntryOps(e.name, UntilZero(e.data), CreateFileData(e.name).value, fromGroup, toGroup, extra);
      ops[|ops| - 1] == Write(e.name, UntilZero(e.data)) &&
      (ApplyOps(files, failing, ops).0 ==> e.name in ApplyOps(files, failing, ops).1 &&
                                           ApplyOps(files, failing, ops).1[e.name] == UntilZero(e.data))
    ensures 0 in e.data ==> |UntilZero(e.data)| < |e.data|
  {
    CallsOfOne(e);
    ClassEntryCopied(e.name, UntilZero(e.data), fromGroup, toGroup, extra, files, failing);
    UntilZeroBounds(e.data);
  }

  /** A class entry is written under its own name with the bytes it is given unmodified. */
  lemma ClassEntryCopied(name: string, data: Bytes, fromGroup: string, toGroup: string,
                         extra: (string, FileData) -> string, files: map<string, Bytes>, failing: set<string>)
    requires !EndsWith(name, "/")
    requires EndsWith(CreateFileData(name).value.fileName, ".class")
    ensures
      var ops := EntryOps(name, data, CreateFileData(name).value, fromGroup, toGroup, extra);
      ops[|ops| - 1] == Write(name, data) &&
      (ApplyOps(files, failing, ops).0 ==> name in ApplyOps(files, failing, ops).1 &&
                                           ApplyOps(files, failing, ops).1[name] == data)
  {
    var fd := CreateFileData(name).value;
    assert fd.fileName != REFMAP by {
      assert REFMAP[|REFMAP| - 6..] != ".class";
    }
    var path := RelocatedPath(fd, fromGroup, toGroup);
    var ops := EntryOps(name, data, fd, fromGroup, toGroup, extra);
    assert ops == [Delete(path), Write(name, data)];
    assert ops[1..] == [Write(name, data)];
    assert ops[1..][1..] == [];
    assert ApplyOps(files, failing, ops) == ApplyOps(files - {path}, failing, ops[1..]);
    if name !in failing {
      assert ApplyOps(files - {path}, failing, ops[1..]) == ApplyOps((files - {path})[name := data], failing, []);
    }
  }

  /** The refmap keeps its directory and name; its text has the slashed group replaced. */
  lemma RefmapKeepsPath(name: string, data: Bytes, fromGroup: string, toGroup: string,
                        extra: (string, FileData) -> string)
    requires !EndsWith(name, "/") && !StartsWith(name, "/")
    requires CreateFileData(name).value.fileName == REFMAP
    ensures
      EntryOps(name, data, CreateFileData(name).value, fromGroup, toGroup, extra)
        == [Write(name, Encode(ReplaceAll(Decode(data), Slashed(fromGroup), Slashed(toGroup))))]
  {
    var fd := CreateFileData(name).value;
    if '/' in name {
      FileDataRejoins(name);
      var k := LastIndexOf(name, '/');
      assert name[..1] == [name[0]];
      assert fd.directory != "";
    } else {
      FileDataWithoutSlash(name);
    }
  }

  /**
   * A path with no occurrence of the group, neither in its file name nor in its dotted
   * directory, keeps its path, provided its directory has no '.'.
   */
  lemma UntouchedPathKept(name: string, fromGroup: string, toGroup: string)
    requires !EndsWith(name, "/") && !StartsWith(name, "/")
    requires
      var fd := CreateFileData(name).value;
      !Contains(fd.fileName, fromGroup) && !Contains(ReplaceChar(fd.directory, '/', '.'), fromGroup) &&
      '.' !in fd.directory
    ensures RelocatedPath(CreateFileData(name).value, fromGroup, toGroup) == name
  {
    var fd := CreateFileData(name).value;
    ReplaceAllAbsent(fd.fileName, fromGroup, toGroup);
    ReplaceAllAbsent(ReplaceChar(fd.directory, '/', '.'), fromGroup, toGroup);
    ReplaceCharBack(fd.directory, '/', '.');
    if '/' in name {
      FileDataRejoins(name);
      var k := LastIndexOf(name, '/');
      assert name[..1] == [name[0]];
    } else {
      FileDataWithoutSlash(name);
    }
  }

  /**
   * A directory and a file name without '/', joined by '/', split back into exactly them,
   * whatever the directory holds (so `a.b/c` is the file `c` in the directory `a.b`).
   */
  lemma FileDataOfJoin(directory: string, fileName: string)
    requires fileName != "" && '/' !in fileName
    ensures CreateFileData(directory + "/" + fileName) == Some(FileData(fileName, directory))
  {
    var name := directory + "/" + fileName;
    var d := |directory|;
    assert name[d] == '/';
    assert name[|name| - 1..] == [fileName[|fileName| - 1]];
    var k := LastIndexOf(name, '/');
    assert k == d;
    FileDataRejoins(name);
    assert name[..d] == directory && name[d + 1..] == fileName;
  }

  /**
   * Where the group does not occur, a relocated path is the path with every '.' of
   * its directory turned into '/': a directory with a '.' (`a.b/c`) is split into
   * nested directories (`a/b/c`), so the path changes exactly when its directory has a '.'.
   */
  lemma DottedDirectorySplit(name: string, fromGroup: string, toGroup: string)
    requires '/' in name && !EndsWith(name, "/")
    requires
      var fd := CreateFileData(name).value;
      fd.directory != "" && !Contains(fd.fileName, fromGroup) && !Contains(ReplaceChar(fd.directory, '/', '.'), fromGroup)
    ensures
      var fd := CreateFileData(name).value;
      var path := RelocatedPath(fd, fromGroup, toGroup);
      path == Slashed(fd.directory) + "/" + fd.fileName && ('.' in fd.directory <==> path != name)
  {
    FileDataRejoins(name);
    var fd := CreateFileData(name).value;
    var rest := "/" + fd.fileName;
    Concat3(fd.directory, "/", fd.fileName);
    Concat3(Slashed(fd.directory), "/", fd.fileName);
    RelocatedPathAbsent(fd, fromGroup, toGroup);
    SlashedChanges(fd.directory, rest);
  }

  /** Without an occurrence of the group, only the directory's dots change. */
  lemma RelocatedPathAbsent(fd: FileData, fromGroup: string, toGroup: string)
    requires fd.directory != "" && !Contains(fd.fileName, fromGroup)
    requires !Contains(ReplaceChar(fd.directory, '/', '.'), fromGroup)
    ensures RelocatedPath(fd, fromGroup, toGroup) == Slashed(fd.directory) + ("/" + fd.fileName)
  {
    ReplaceAllAbsent(fd.fileName, fromGroup, toGroup);
    var dotted := ReplaceChar(fd.directory, '/', '.');
    ReplaceAllAbsent(dotted, fromGroup, toGroup);
    assert Slashed(dotted) == Slashed(fd.directory);
  }

  /** Changes applied where nothing fails always succeed. */
  lemma {:induction false} ApplyOpsSucceeds(files: map<string, Bytes>, ops: seq<Op>)
    ensures ApplyOps(files, {}, ops).0
    decreases |ops|
  {
    if ops != [] {
      match ops[0]
      case Delete(p) => ApplyOpsSucceeds(files - {p}, ops[1..]);
      case Write(p, d) => ApplyOpsSucceeds(files[p := d], ops[1..]);
    }
  }

  /** Without an IOException, `relocate` returns true; so false means an IOException occurred. */
  lemma {:induction false} RelocateSucceedsWithoutIoErrors(files: map<string, Bytes>, calls: seq<(string, Bytes)>,
                                                            fromGroup: string, toGroup: string,
                                                            extra: (string, FileData) -> string)
    requires NamesFiles(calls)
    ensures RelocateAll(files, {}, calls, fromGroup, toGroup, extra).0
    decreases |calls|
  {
    if calls != [] {
      var ops := EntryOps(calls[0].0, calls[0].1, CreateFileData(calls[0].0).value, fromGroup, toGroup, extra);
      ApplyOpsSucceeds(files, ops);
      RelocateSucceedsWithoutIoErrors(ApplyOps(files, {}, ops).1, calls[1..], fromGroup, toGroup, extra);
    }
  }
  /** No write among `ops` is to a failing path. */
  predicate WritesAvoid(ops: seq<Op>, failing: set<string>) {
    forall i :: 0 <= i < |ops| && ops[i].Write? ==> ops[i].path !in failing
  }

  lemma WritesAvoidCons(ops: seq<Op>, failing: set<string>)
    requires ops != []
    ensures WritesAvoid(ops, failing) <==>
            (ops[0].Write? ==> ops[0].path !in failing) && WritesAvoid(ops[1..], failing)
  {
    if (ops[0].Write? ==> ops[0].path !in failing) && WritesAvoid(ops[1..], failing) {
      forall i | 0 <= i < |ops| && ops[i].Write?
        ensures ops[i].path !in failing
      {
        if i > 0 {
          assert ops[i] == ops[1..][i - 1];
        }
      }
    }
  }

  /** An entry's changes succeed exactly when none of its writes is to a failing path. */
  lemma {:induction false} ApplyOpsFailsExactly(files: map<string, Bytes>, failing: set<string>, ops: seq<Op>)
    ensures ApplyOps(files, failing, ops).0 <==> WritesAvoid(ops, failing)
    decreases |ops|
  {
    if ops != [] {
      WritesAvoidCons(ops, failing);
      match ops[0]
      case Delete(p) => ApplyOpsFailsExactly(files - {p}, failing, ops[1..]);
      case Write(p, d) =>
        if p !in failing {
          ApplyOpsFailsExactly(files[p := d], failing, ops[1..]);
        }
    }
  }

  /** No call's changes write to a failing path. */
  predicate CallsAvoid(calls: seq<(string, Bytes)>, failing: set<string>,
                       fromGroup: string, toGroup: string, extra: (string, FileData) -> string)
    requires NamesFiles(calls)
  {
    forall i :: 0 <= i < |calls| ==>
      WritesAvoid(EntryOps(calls[i].0, calls[i].1, CreateFileData(calls[i].0).value, fromGroup, toGroup, extra), failing)
  }

  lemma CallsAvoidCons(calls: seq<(string, Bytes)>, failing: set<string>,
                       fromGroup: string, toGroup: string, extra: (string, FileData) -> string)
    requires NamesFiles(calls) && calls != []
    ensures NamesFiles(calls[1..])
    ensures CallsAvoid(calls, failing, fromGroup, toGroup, extra) <==>
            WritesAvoid(EntryOps(calls[0].0, calls[0].1, CreateFileData(calls[0].0).value, fromGroup, toGroup, extra), failing) &&
            CallsAvoid(calls[1..], failing, fromGroup, toGroup, extra)
  {
    assert forall i :: 0 <= i < |calls| - 1 ==> calls[1..][i] == calls[i + 1];
    if !CallsAvoid(calls, failing, fromGroup, toGroup, extra) {
      var i :| 0 <= i < |calls| &&
        !WritesAvoid(EntryOps(calls[i].0, calls[i].1, CreateFileData(calls[i].0).value, fromGroup, toGroup, extra), failing);
      if i > 0 {
        assert calls[1..][i - 1] == calls[i];
      }
    }
  }

  /**
   * `relocate` returns false exactly when some entry's changes write to a failing path, that is
   * when an IOException is thrown, and true otherwise. The changes do not depend on the output
   * directory, so the failing set alone decides.
   */
  lemma {:induction false} RelocateFailsExactly(files: map<string, Bytes>, failing: set<string>,
                                                calls: seq<(string, Bytes)>, fromGroup: string, toGroup: string,
                                                extra: (string, FileData) -> string)
    requires NamesFiles(calls)
    ensures RelocateAll(files, failing, calls, fromGroup, toGroup, extra).0 <==>
            CallsAvoid(calls, failing, fromGroup, toGroup, extra)
    decreases |calls|
  {
    if calls != [] {
      var ops := EntryOps(calls[0].0, calls[0].1, CreateFileData(calls[0].0).value, fromGroup, toGroup, extra);
      ApplyOpsFailsExactly(files, failing, ops);
      CallsAvoidCons(calls, failing, fromGroup, toGroup, extra);
      RelocateFailsExactly(ApplyOps(files, failing, ops).1, failing, calls[1..], fromGroup, toGroup, extra);
    }
  }
}
