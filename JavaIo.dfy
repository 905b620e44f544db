/**
 * The parts of java.io, java.nio.file and java.util.zip that the build plugin uses:
 * bytes, zip entries, an input stream, a zip input stream, a jar output stream and
 * the output directory as a map from relative path to file contents.
 */
module JavaIo {
  import opened Wrappers
  import opened JavaStrings

  /** A byte as `InputStream.read()` returns it. */
  newtype Byte = x: int | 0 <= x < 256

  type Bytes = seq<Byte>

  /** A zip or jar entry: its name and the bytes stored under it. */
  datatype Entry = Entry(name: string, data: Bytes)

  /** `ZipEntry.isDirectory()`: the name ends with '/'. */
  predicate IsDirectory(e: Entry) {
    EndsWith(e.name, "/")
  }

  function Names(es: seq<Entry>): (ns: seq<string>)
    ensures |ns| == |es|
    ensures forall i :: 0 <= i < |es| ==> ns[i] == es[i].name
  {
    seq(|es|, i requires 0 <= i < |es| => es[i].name)
  }

  /** No name occurs twice. */
  predicate Distinct(ns: seq<string>) {
    forall i, j :: 0 <= i < j < |ns| ==> ns[i] != ns[j]
  }

  /** Appending an entry of a new name keeps the names distinct. */
  lemma DistinctSnoc(es: seq<Entry>, e: Entry)
    requires Distinct(Names(es)) && e.name !in Names(es)
    ensures Distinct(Names(es + [e]))
  {
    var ns := Names(es + [e]);
    forall i, j | 0 <= i < j < |ns|
      ensures ns[i] != ns[j]
    {
      if j == |es| {
        assert ns[i] == Names(es)[i];
      } else {
        assert ns[i] == Names(es)[i] && ns[j] == Names(es)[j];
      }
    }
  }

  /** A prefix of a duplicate-free jar is duplicate-free. */
  lemma DistinctPrefix(a: seq<Entry>, b: seq<Entry>)
    requires Distinct(Names(a + b))
    ensures Distinct(Names(a))
  {
    forall i, j | 0 <= i < j < |a|
      ensures Names(a)[i] != Names(a)[j]
    {
      assert Names(a + b)[i] == Names(a)[i] && Names(a + b)[j] == Names(a)[j];
    }
  }

  /** An entry whose name was written already makes the names repeat, whatever follows. */
  lemma RepeatedName(w: seq<Entry>, e: Entry, rest: seq<Entry>)
    requires e.name in Names(w)
    ensures !Distinct(Names(w + ([e] + rest)))
  {
    var all := w + ([e] + rest);
    var j :| 0 <= j < |w| && Names(w)[j] == e.name;
    assert all[j] == w[j] && all[|w|] == e;
    assert Names(all)[j] == Names(all)[|w|];
  }

  /** Bytes read as text, one character per byte. */
  function Decode(b: Bytes): (s: string)
    ensures |s| == |b|
  {
    seq(|b|, i requires 0 <= i < |b| => b[i] as int as char)
  }

  /** Text of characters that fit one byte each. */
  predicate Latin1(s: string) {
    forall c :: c in s ==> c as int < 256
  }

  /** Text written as bytes, one byte per character. */
  function Encode(s: string): (b: Bytes)
    ensures |b| == |s|
  {
    seq(|s|, i requires 0 <= i < |s| => (s[i] as int % 256) as Byte)
  }

  /** Decoding and encoding back gives the original bytes. */
  lemma EncodeDecode(b: Bytes)
    ensures Encode(Decode(b)) == b
    ensures Latin1(Decode(b))
  {
  }

  /** Text of one byte per character reads back after encoding. */
  lemma DecodeEncode(s: string)
    requires Latin1(s)
    ensures Decode(Encode(s)) == s
  {
    forall i | 0 <= i < |s|
      ensures Decode(Encode(s))[i] == s[i]
    {
      assert s[i] in s;
    }
  }

  /** An input stream: the bytes it reads and how many of them were read. */
  class InputStream {
    var data: Bytes
    var pos: nat

    ghost predicate Valid()
      reads this
    {
      pos <= |data|
    }

    constructor (data: Bytes)
      ensures Valid() && this.data == data && pos == 0
    {
      this.data := data;
      pos := 0;
    }

    /** What is left to read. */
    ghost function Remaining(): Bytes
      reads this
      requires Valid()
    {
      data[pos..]
    }

    /** `read()`: the next byte, or -1 at the end of the stream. */
    method Read() returns (b: int)
      requires Valid()
      modifies this
      ensures Valid() && data == old(data)
      ensures old(pos) < |data| ==> b == data[old(pos)] as int && pos == old(pos) + 1
      ensures old(pos) == |data| ==> b == -1 && pos == old(pos)
    {
      if pos < |data| {
        b := data[pos] as int;
        pos := pos + 1;
      } else {
        b := -1;
      }
    }
  }

  /**
   * A zip input stream. Reading from it reads the data of the entry returned last,
   * which `body` holds; `getNextEntry()` moves `body` on to the next entry.
   */
  class ZipInputStream {
    const entries: seq<Entry>
    var next: nat
    const body: InputStream

    ghost predicate Valid()
      reads this, body
    {
      next <= |entries| && body.Valid()
    }

    constructor (entries: seq<Entry>)
      ensures Valid() && this.entries == entries && next == 0
    {
      this.entries := entries;
      next := 0;
      body := new InputStream([]);
    }

    /** `getNextEntry()`: the next entry, or none (null) after the last. */
    method GetNextEntry() returns (e: Option<Entry>)
      requires Valid()
      modifies this, body
      ensures Valid()
      ensures old(next) < |entries| ==>
                e == Some(entries[old(next)]) && next == old(next) + 1 &&
                body.data == entries[old(next)].data && body.pos == 0
      ensures old(next) == |entries| ==> e == None && next == old(next)
    {
      if next < |entries| {
        e := Some(entries[next]);
        body.data := entries[next].data;
        body.pos := 0;
        next := next + 1;
      } else {
        e := None;
      }
    }
  }

  /** A jar output stream: the entries written so far, in order. */
  class JarOutputStream {
    var entries: seq<Entry>

    constructor ()
      ensures entries == []
    {
      entries := [];
    }

    /**
     * `putNextEntry` followed by the entry's data: refused, as a ZipException,
     * when an entry of that name was written already.
     */
    method Put(e: Entry) returns (ok: bool)
      modifies this
      ensures ok == (e.name !in Names(old(entries)))
      ensures entries == if ok then old(entries) + [e] else old(entries)
    {
      ok := e.name !in Names(entries);
      if ok {
        entries := entries + [e];
      }
    }
  }

  /** The output directory: file contents by relative path, and the paths at which writing fails. */
  class FileTree {
    var files: map<string, Bytes>
    const failing: set<string>

    constructor (files: map<string, Bytes>, failing: set<string>)
      ensures this.files == files && this.failing == failing
    {
      this.files := files;
      this.failing := failing;
    }

    /** `Files.deleteIfExists(path)` */
    method Delete(path: string)
      modifies this
      ensures files == old(files) - {path}
    {
      files := files - {path};
    }

    /** `Files.write` / `Files.copy` with replacement: an IOException at a failing path. */
    method Write(path: string, data: Bytes) returns (ok: bool)
      modifies this
      ensures ok == (path !in failing)
      ensures files == if ok then old(files)[path := data] else old(files)
    {
      ok := path !in failing;
      if ok {
        files := files[path := data];
      }
    }
  }
}
