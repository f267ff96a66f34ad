/** The extraction loop of the example application's `downloadFiles`: every
    file entry of an already-opened archive stream is copied, through a
    1024-byte buffer, into a file of the destination directory named after the
    entry. Fetching and decompressing the archive are not part of this model;
    the archive is given as its sequence of entries. */
module Extraction {
  import opened Outcomes

  /** An archive entry: its relative name, whether it is a directory, the data
      bytes the archive delivers for it, and, for a damaged archive, the
      message of the exception that reading throws once those bytes are read. */
  datatype Entry = Entry(name: string, isDirectory: bool, content: seq<byte>, failure: Option<string>)

  /** The destination directory: file name to file content. */
  type Files = map<string, seq<byte>>

  /** Final directory contents and outcome of an extraction. */
  datatype Extracted = Extracted(files: Files, outcome: Result<()>)

  /** Extraction of `entries` in archive order into `files`: directory entries
      are skipped; a file entry replaces (or creates) the file of its name; a
      read failure stops everything, after the bytes read so far were written. */
  function Extract(files: Files, entries: seq<Entry>): Extracted
    decreases |entries|
  {
    if entries == [] then Extracted(files, Ok(()))
    else
      var e := entries[0];
      if e.isDirectory then Extract(files, entries[1..])
      else
        var written := files[e.name := e.content];
        if e.failure.Some? then Extracted(written, Err(e.failure.value))
        else Extract(written, entries[1..])
  }

  /** The names of the file (non-directory) entries. */
  function FileNames(entries: seq<Entry>): set<string>
  {
    set i | 0 <= i < |entries| && !entries[i].isDirectory :: entries[i].name
  }

  /** True when no file entry fails to read. */
  predicate Intact(entries: seq<Entry>)
  {
    forall i :: 0 <= i < |entries| && !entries[i].isDirectory ==> entries[i].failure.None?
  }

  /** Extraction succeeds exactly when no file entry fails to read; a failed
      extraction reports the message of the first failing file entry. */
  lemma {:induction false} ExtractOutcome(files: Files, entries: seq<Entry>)
    ensures Extract(files, entries).outcome.Ok? <==> Intact(entries)
    ensures Extract(files, entries).outcome.Err? ==>
              exists i :: 0 <= i < |entries| && !entries[i].isDirectory && entries[i].failure.Some?
                          && Extract(files, entries).outcome.message == entries[i].failure.value
                          && Intact(entries[..i])
    decreases |entries|
  {
    if entries != [] {
      var e := entries[0];
      var next := if e.isDirectory then files else files[e.name := e.content];
      ExtractOutcome(next, entries[1..]);
      if Extract(files, entries).outcome.Err? {
        if !e.isDirectory && e.failure.Some? {
          assert entries[..0] == [];
        } else {
          var i :| 0 <= i < |entries[1..]| && !entries[1..][i].isDirectory && entries[1..][i].failure.Some?
                   && Extract(next, entries[1..]).outcome.message == entries[1..][i].failure.value
                   && Intact(entries[1..][..i]);
          assert entries[..i + 1] == [e] + entries[1..][..i];
          assert Intact(entries[..i + 1]);
        }
      }
    }
  }

  /** Extraction of a concatenation is extraction of the first part, then,
      unless it failed, of the second part from where the first one left off. */
  lemma {:induction false} ExtractAppend(files: Files, a: seq<Entry>, b: seq<Entry>)
    ensures Extract(files, a + b)
            == if Extract(files, a).outcome.Err? then Extract(files, a)
               else Extract(Extract(files, a).files, b)
    decreases |a|
  {
    if a == [] {
      assert a + b == b;
    } else {
      assert (a + b)[1..] == a[1..] + b;
      var e := a[0];
      ExtractAppend(if e.isDirectory then files else files[e.name := e.content], a[1..], b);
    }
  }

  /** Directory entries produce nothing: removing one anywhere from the
      archive does not change the extraction. */
  lemma DirectoryEntrySkipped(files: Files, a: seq<Entry>, d: Entry, b: seq<Entry>)
    requires d.isDirectory
    ensures Extract(files, a + [d] + b) == Extract(files, a + b)
  {
    ExtractAppend(files, a + [d], b);
    ExtractAppend(files, a, [d]);
    ExtractAppend(files, a, b);
    var rest := Extract(files, a);
    if rest.outcome.Ok? {
      assert [d][1..] == [];
    }
  }

  /** No rollback: when a file entry fails to read after a run of entries
      that extracted cleanly, the files those entries wrote stay, the failing
      entry's file holds the bytes read before the failure, and the entries
      after it are never reached. */
  lemma NoRollback(files: Files, a: seq<Entry>, e: Entry, b: seq<Entry>)
    requires Extract(files, a).outcome.Ok?
    requires !e.isDirectory && e.failure.Some?
    ensures Extract(files, a + [e] + b)
            == Extracted(Extract(files, a).files[e.name := e.content], Err(e.failure.value))
  {
    ExtractAppend(files, a + [e], b);
    ExtractAppend(files, a, [e]);
  }

  /** A file not named by any file entry is left as it was: it keeps its
      content if it existed and is not created otherwise. This holds whether
      or not the extraction fails. */
  lemma {:induction false} UnnamedFilesUnchanged(files: Files, entries: seq<Entry>, name: string)
    requires name !in FileNames(entries)
    ensures name in Extract(files, entries).files <==> name in files
    ensures name in files ==> Extract(files, entries).files[name] == files[name]
    decreases |entries|
  {
    if entries != [] {
      var e := entries[0];
      assert !e.isDirectory ==> e.name in FileNames(entries);
      assert FileNames(entries[1..]) <= FileNames(entries) by {
        forall n | n in FileNames(entries[1..]) ensures n in FileNames(entries) {
          var i :| 0 <= i < |entries[1..]| && !entries[1..][i].isDirectory && entries[1..][i].name == n;
          assert entries[i + 1] == entries[1..][i];
        }
      }
      UnnamedFilesUnchanged(if e.isDirectory then files else files[e.name := e.content], entries[1..], name);
    }
  }

  /** After a successful extraction, the directory holds exactly the files it
      held before plus one per file-entry name. */
  lemma {:induction false} ExtractedKeys(files: Files, entries: seq<Entry>)
    requires Extract(files, entries).outcome.Ok?
    ensures Extract(files, entries).files.Keys == files.Keys + FileNames(entries)
    decreases |entries|
  {
    if entries != [] {
      var e := entries[0];
      var next := if e.isDirectory then files else files[e.name := e.content];
      ExtractedKeys(next, entries[1..]);
      forall n | n in FileNames(entries) ensures n in FileNames(entries[1..]) || (!e.isDirectory && n == e.name) {
        var i :| 0 <= i < |entries| && !entries[i].isDirectory && entries[i].name == n;
        if i > 0 {
          assert entries[1..][i - 1] == entries[i];
        }
      }
      forall n | n in FileNames(entries[1..]) ensures n in FileNames(entries) {
        var i :| 0 <= i < |entries[1..]| && !entries[1..][i].isDirectory && entries[1..][i].name == n;
        assert entries[i + 1] == entries[1..][i];
      }
      assert !e.isDirectory ==> e.name in FileNames(entries);
    }
  }

  /** Last write wins: after a successful extraction, a file entry that no
      later file entry names again has its whole content in the file of its
      name, so an earlier entry of the same name has been overwritten. */
  lemma {:induction false} LastWriteWins(files: Files, entries: seq<Entry>, i: nat)
    requires Extract(files, entries).outcome.Ok?
    requires i < |entries| && !entries[i].isDirectory
    requires forall j :: i < j < |entries| && !entries[j].isDirectory ==> entries[j].name != entries[i].name
    ensures entries[i].name in Extract(files, entries).files
    ensures Extract(files, entries).files[entries[i].name] == entries[i].content
    decreases |entries|
  {
    var e := entries[0];
    var next := if e.isDirectory then files else files[e.name := e.content];
    if i == 0 {
      assert entries[i].name !in FileNames(entries[1..]) by {
        forall j | 0 <= j < |entries[1..]| && !entries[1..][j].isDirectory
          ensures entries[1..][j].name != entries[i].name
        {
          assert entries[1..][j] == entries[j + 1];
        }
      }
      UnnamedFilesUnchanged(next, entries[1..], entries[i].name);
    } else {
      forall j | i - 1 < j < |entries[1..]| && !entries[1..][j].isDirectory
        ensures entries[1..][j].name != entries[1..][i - 1].name
      {
        assert entries[1..][j] == entries[j + 1];
      }
      LastWriteWins(next, entries[1..], i - 1);
    }
  }

  /** The destination directory, updated in place. */
  class Directory {
    var files: Files

    constructor (files: Files)
      ensures this.files == files
    {
      this.files := files;
    }

    /** `new FileOutputStream(new File(destDir, name))`: creates the file, or
        truncates it when it exists (the stream is not opened in append mode). */
    method Open(name: string)
      modifies this
      ensures files == old(files)[name := []]
    {
      files := files[name := []];
    }

    /** `out.write(buf, 0, n)`: appends the first `n` bytes of `buf`. */
    method Write(name: string, buf: array<byte>, n: int32)
      requires name in files && 0 <= n as int <= buf.Length
      modifies this
      ensures files == old(files)[name := old(files)[name] + buf[..n]]
    {
      files := files[name := files[name] + buf[..n]];
    }
  }

  /** The decompressed archive stream: the entries in archive order, how many
      `getNextEntry` has returned, and how far the current entry's data has
      been read. */
  class ArchiveInputStream {
    const entries: seq<Entry>
    var next: nat
    var pos: nat

    ghost predicate Valid()
      reads this
    {
      next <= |entries| &&
      (next == 0 ==> pos == 0) &&
      (next > 0 ==> pos <= |entries[next - 1].content|)
    }

    constructor (entries: seq<Entry>)
      ensures Valid() && this.entries == entries && next == 0 && pos == 0
    {
      this.entries := entries;
      next, pos := 0, 0;
    }

    /** `getNextEntry()`: the next entry, or `None` (Java `null`) at the end. */
    method GetNextEntry() returns (e: Option<Entry>)
      requires Valid()
      modifies this
      ensures Valid()
      ensures old(next) < |entries| ==> e == Some(entries[old(next)]) && next == old(next) + 1 && pos == 0
      ensures old(next) == |entries| ==> e.None? && next == old(next) && pos == old(pos)
    {
      if next < |entries| {
        e := Some(entries[next]);
        next, pos := next + 1, 0;
      } else {
        e := None;
      }
    }

    /** `read(buf)` on the current entry: -1 at the end of its data (or the
        exception of a damaged archive), otherwise between 1 and `buf.Length`
        of the next data bytes, copied to the front of `buf`. How many bytes a
        read delivers is the stream's choice; `want` stands for it. */
    method Read(buf: array<byte>, want: nat) returns (r: Result<int32>)
      requires Valid() && next > 0 && 0 < buf.Length < 0x8000_0000
      modifies this`pos, buf
      ensures Valid()
      ensures old(pos) == |entries[next - 1].content| ==>
                pos == old(pos) && unchanged(buf) &&
                r == (if entries[next - 1].failure.Some? then Err(entries[next - 1].failure.value) else Ok(-1))
      ensures old(pos) < |entries[next - 1].content| ==>
                r.Ok? && 1 <= r.value as int <= buf.Length && pos == old(pos) + r.value as int &&
                buf[..r.value] == entries[next - 1].content[old(pos)..pos]
    {
      var data := entries[next - 1].content;
      if pos == |data| {
        r := if entries[next - 1].failure.Some? then Err(entries[next - 1].failure.value) else Ok(-1);
      } else {
        var n := want;
        if n > buf.Length { n := buf.Length; }
        if n > |data| - pos { n := |data| - pos; }
        if n == 0 { n := 1; }
        forall k | 0 <= k < n {
          buf[k] := data[pos + k];
        }
        pos := pos + n;
        r := Ok(n as int32);
      }
    }
  }

  /** The inner loop of `downloadFiles` for one file entry: create or
      truncate the file of the entry's name, then `read` into `buf` and write
      what was read until `read` returns -1 or throws. Whatever the chunk sizes,
      the file ends up holding the entry's whole data. */
  method CopyEntry(ain: ArchiveInputStream, destDir: Directory, buf: array<byte>, chunking: nat -> nat, readCount: nat)
    returns (nbRead: Result<int32>, readsAfter: nat)
    requires ain.Valid() && 1 <= ain.next && ain.pos == 0 && buf.Length == 1024
    modifies ain`pos, destDir, buf
    ensures ain.Valid()
    ensures nbRead == Ok(-1) || nbRead.Err?
    ensures var e := ain.entries[ain.next - 1];
            destDir.files == old(destDir.files)[e.name := e.content] &&
            (nbRead.Err? <==> e.failure.Some?) &&
            (nbRead.Err? ==> nbRead.message == e.failure.value)
  {
    var e := ain.entries[ain.next - 1];
    destDir.Open(e.name);
    nbRead := ain.Read(buf, chunking(readCount));
    readsAfter := readCount + 1;
    while nbRead.Ok? && nbRead.value != -1
      invariant ain.Valid() && e == ain.entries[ain.next - 1]
      invariant nbRead.Ok? && nbRead.value != -1 ==>
                  1 <= nbRead.value as int <= ain.pos && nbRead.value as int <= buf.Length &&
                  destDir.files == old(destDir.files)[e.name := e.content[..ain.pos - nbRead.value as int]] &&
                  buf[..nbRead.value] == e.content[ain.pos - nbRead.value as int..ain.pos]
      invariant nbRead.Ok? && nbRead.value == -1 ==>
                  e.failure.None? && destDir.files == old(destDir.files)[e.name := e.content]
      invariant nbRead.Err? ==>
                  e.failure == Some(nbRead.message) && destDir.files == old(destDir.files)[e.name := e.content]
      decreases |e.content| - ain.pos + (if nbRead.Ok? && nbRead.value != -1 then 1 else 0)
    {
      var n := nbRead.value as int;
      destDir.Write(e.name, buf, nbRead.value);
      assert e.content[..ain.pos - n] + e.content[ain.pos - n..ain.pos] == e.content[..ain.pos];
      nbRead := ain.Read(buf, chunking(readsAfter));
      readsAfter := readsAfter + 1;
      if nbRead.Err? || nbRead.value == -1 {
        assert e.content[..ain.pos] == e.content;
      }
    }
  }

  /** The extraction body of `downloadFiles`: for each entry, skip it if it is
      a directory, otherwise copy its data into the file of its name. A read
      failure propagates at once; nothing written before it is undone. The
      chunk sizes the stream delivers are arbitrary (`chunking`); the result
      does not depend on them. */
  method ExtractArchive(ain: ArchiveInputStream, destDir: Directory, chunking: nat -> nat) returns (r: Result<()>)
    requires ain.Valid() && ain.next == 0
    modifies ain, destDir
    ensures r == Extract(old(destDir.files), ain.entries).outcome
    ensures destDir.files == Extract(old(destDir.files), ain.entries).files
  {
    var buf := new byte[1024];
    var readCount := 0;
    var entry := ain.GetNextEntry();
    assert ain.entries[ain.next - (if entry.Some? then 1 else 0)..] == ain.entries;
    while entry.Some?
      invariant ain.Valid()
      invariant entry.Some? ==> 1 <= ain.next && entry.value == ain.entries[ain.next - 1] && ain.pos == 0
      invariant entry.None? ==> ain.next == |ain.entries|
      invariant Extract(destDir.files, ain.entries[ain.next - (if entry.Some? then 1 else 0)..])
                == Extract(old(destDir.files), ain.entries)
      decreases |ain.entries| - ain.next + (if entry.Some? then 1 else 0)
    {
      var e := entry.value;
      assert ain.entries[ain.next - 1..][1..] == ain.entries[ain.next..];
      if !e.isDirectory {
        var nbRead;
        nbRead, readCount := CopyEntry(ain, destDir, buf, chunking, readCount);
        if nbRead.Err? {
          return Err(nbRead.message);
        }
      }
      entry := ain.GetNextEntry();
    }
    r := Ok(());
  }
}
