/**
 * File transfer (internal/chat/file.go). The sender writes the base name of
 * the file and then its content on one stream; the receiver takes its first
 * read, of at most 256 bytes, as the file name and everything after it, up
 * to the end of the stream, as the content. Nothing on the wire marks where
 * the name ends, so the receiver recovers the sender's name only when the
 * transport hands the name over as a chunk of its own.
 */
module FileTransfer {
  import opened Outcomes
  import opened Bytes
  import opened PeerIds
  import opened Streams

  const FileTransferProtocol: Bytes := Ascii("/p2p-chat/file/1.0.0")

  /** The size of the receiver's metadata buffer. */
  const MetadataBufferSize: nat := 256

  /** The buffer size `io.Copy` reads and writes with. */
  const CopyBufferSize: nat := 32 * 1024

  const Slash: byte := 47

  predicate SlashFree(s: Bytes) {
    forall i :: 0 <= i < |s| ==> s[i] != Slash
  }

  /** `path` without its trailing slashes. */
  function TrimTrailingSlashes(path: Bytes): (r: Bytes)
    ensures |r| <= |path| && r == path[..|r|]
    ensures r == [] || r[|r| - 1] != Slash
    ensures forall i :: |r| <= i < |path| ==> path[i] == Slash
  {
    if path != [] && path[|path| - 1] == Slash then TrimTrailingSlashes(path[..|path| - 1]) else path
  }

  /** What follows the last slash of `path`. */
  function LastElement(path: Bytes): (r: Bytes)
    ensures |r| <= |path| && r == path[|path| - |r|..]
    ensures SlashFree(r)
    ensures |r| < |path| ==> path[|path| - |r| - 1] == Slash
  {
    if path == [] || path[|path| - 1] == Slash then []
    else LastElement(path[..|path| - 1]) + [path[|path| - 1]]
  }

  /**
   * `filepath.Base` with '/' as separator: "." for the empty path, "/" for
   * a path of slashes only, otherwise the last element once trailing
   * slashes are dropped.
   */
  function Base(path: Bytes): (r: Bytes)
    ensures r != []
    ensures r == Ascii("/") || SlashFree(r)
  {
    if path == [] then Ascii(".")
    else
      var e := LastElement(TrimTrailingSlashes(path));
      if e == [] then Ascii("/") else e
  }

  /** The base name of a name without slashes is the name itself, so `Base` is idempotent. */
  lemma BaseOfName(name: Bytes)
    requires name != [] && SlashFree(name)
    ensures Base(name) == name
    ensures Base(Base(name)) == Base(name)
  {
    assert LastElement(name) == name;
  }

  /**
   * `filepath.Join(dir, name)` without the final `Clean`: empty parts are
   * dropped and the others joined with one slash.
   */
  function Join(dir: Bytes, name: Bytes): (r: Bytes)
    ensures dir == [] ==> r == name
    ensures name == [] ==> r == dir
    ensures dir != [] && name != [] ==> r == dir + [Slash] + name
  {
    if dir == [] then name
    else if name == [] then dir
    else dir + [Slash] + name
  }

  /**
   * Joining a slash-free name onto any directory and taking the base name
   * gives the name back. The names "." and ".." are excluded: there Go's
   * `Clean` removes or resolves the last element.
   */
  lemma BaseOfJoin(dir: Bytes, name: Bytes)
    requires name != [] && SlashFree(name) && name != Ascii(".") && name != Ascii("..")
    ensures Base(Join(dir, name)) == name
  {
    BaseOfName(name);
    if dir != [] {
      LastElementAfterSlash(dir, name);
    }
  }

  lemma {:induction false} LastElementAfterSlash(dir: Bytes, name: Bytes)
    requires SlashFree(name)
    ensures LastElement(dir + [Slash] + name) == name
  {
    if name != [] {
      var p := dir + [Slash] + name;
      assert p[..|p| - 1] == dir + [Slash] + name[..|name| - 1];
      LastElementAfterSlash(dir, name[..|name| - 1]);
      assert name[..|name| - 1] + [name[|name| - 1]] == name;
    }
  }

  /** A name that `Clean` keeps as the last element of a joined path. */
  predicate PlainName(name: Bytes) {
    name != [] && SlashFree(name) && name != Ascii(".") && name != Ascii("..")
  }

  /** Where a received file of this name is stored. */
  function GetReceivedFilePath(uploadDir: Bytes, filename: Bytes): (r: Bytes)
    ensures PlainName(filename) ==> Base(r) == filename
  {
    var path := Join(uploadDir, filename);
    assert PlainName(filename) ==> Base(path) == filename by {
      if PlainName(filename) {
        BaseOfJoin(uploadDir, filename);
      }
    }
    path
  }

  /** What the receiving handler leaves behind. */
  datatype Receipt =
    | /** The first read failed (io.EOF or an error): no file was created. */
      MetadataReadFailed
    | /** `os.Create` refused the path: no file was created. */
      CreateFailed(path: Bytes)
    | /** A file named `name` was created at `path` holding `content`; `complete` says `io.Copy` reached io.EOF with every byte written, rather than failing on a read or a write. */
      Written(name: Bytes, path: Bytes, content: Bytes, complete: bool)

  /**
   * `HandleFileTransferStream`: one read of at most 256 bytes is the name,
   * the file is created at `GetReceivedFilePath(uploadDir, name)` (`createOk`
   * is the file system's answer) and the rest of the stream is copied into
   * it, the file taking at most `room` bytes before a write fails (a full
   * disk or a quota). A failed copy leaves the partly written file in place.
   */
  function HandleFileTransferStream(uploadDir: Bytes, s: Stream, createOk: bool, room: nat): (r: Receipt)
    ensures r.MetadataReadFailed? <==> s.pending == []
    ensures r.CreateFailed? <==> s.pending != [] && !createOk
    ensures r.CreateFailed? ==> r.path == GetReceivedFilePath(uploadDir, Read(s, MetadataBufferSize).0.bytes)
    ensures r.Written? ==>
      && Read(s, MetadataBufferSize).0 == Data(r.name)
      && |r.name| <= MetadataBufferSize
      && r.path == GetReceivedFilePath(uploadDir, r.name)
      && r.content == Fit(Concat(Read(s, MetadataBufferSize).1.pending), room)
      && IsPrefix(r.name + r.content, Concat(s.pending))
      && (r.complete <==> s.tail == Closed && r.name + r.content == Concat(s.pending))
  {
    var (first, rest) := Read(s, MetadataBufferSize);
    match first
    case Data(name) =>
      var path := GetReceivedFilePath(uploadDir, name);
      if !createOk then CreateFailed(path)
      else
        ReadConserves(s, MetadataBufferSize);
        var (content, complete) := Copy(rest, CopyBufferSize, room);
        FitAfter(name, Concat(rest.pending), room);
        Written(name, path, content, complete)
    case _ => MetadataReadFailed
  }

  /** `io.Copy`'s writes of `data`: buffer-sized pieces in order, none empty. */
  function Chunks(data: Bytes): (r: seq<Bytes>)
    ensures forall i :: 0 <= i < |r| ==> 0 < |r[i]| <= CopyBufferSize
    ensures Concat(r) == data
    decreases |data|
  {
    if data == [] then []
    else if |data| <= CopyBufferSize then [data]
    else
      var r := [data[..CopyBufferSize]] + Chunks(data[CopyBufferSize..]);
      ConcatAppend([data[..CopyBufferSize]], Chunks(data[CopyBufferSize..]));
      assert data[..CopyBufferSize] + data[CopyBufferSize..] == data;
      r
  }

  datatype FileError =
    | InvalidPeerId
    | OpenFailed(path: Bytes)
    | StatFailed
    | StreamOpenFailed
    | MetadataWriteFailed
    | DataWriteFailed

  /**
   * What `SendFile` did: the error it returned, whether it got as far as
   * opening the file and the stream, and the writes the stream accepted.
   */
  datatype Attempt = Attempt(err: Option<FileError>, fileOpened: bool, streamOpened: bool, written: seq<Bytes>)

  predicate IsPrefixOf(p: seq<Bytes>, s: seq<Bytes>) {
    |p| <= |s| && p == s[..|p|]
  }

  /** Every write `SendFile` makes, in order: the base name, then the content in copy-buffer pieces. */
  function Transmission(filePath: Bytes, content: Bytes): (r: seq<Bytes>)
    ensures |r| >= 1 && r[0] == Base(filePath)
    ensures Concat(r) == Base(filePath) + content
  {
    ConcatAppend([Base(filePath)], Chunks(content));
    assert Concat([Base(filePath)]) == Base(filePath) + Concat([]);
    [Base(filePath)] + Chunks(content)
  }

  /**
   * `SendFile`. `file` is the content of the file at `filePath`, or `None`
   * when `os.Open` fails; `statOk` is `Stat`'s answer; `link` is how the
   * peer's end of the stream behaves.
   */
  function SendFile(peerIdStr: Bytes, filePath: Bytes, file: Option<Bytes>, statOk: bool, link: Link): (a: Attempt)
    ensures a.streamOpened ==> a.fileOpened
    ensures a.fileOpened <==> Decode(peerIdStr).Some?
    ensures a.err == Some(InvalidPeerId) <==> !a.fileOpened
    ensures a.err == Some(OpenFailed(filePath)) <==> a.fileOpened && file.None?
    ensures !a.streamOpened ==> a.written == []
    ensures a.err == None <==> file.Some? && a.streamOpened && a.written == Transmission(filePath, file.value)
    ensures a.err == None ==> Concat(a.written) == Base(filePath) + file.value
    ensures a.streamOpened ==> file.Some? && IsPrefixOf(a.written, Transmission(filePath, file.value))
    ensures a.streamOpened <==> Decode(peerIdStr).Some? && file.Some? && statOk && link.opens
    ensures a.err == Some(MetadataWriteFailed) ==> a.written == []
    ensures a.err == None <==>
      && Decode(peerIdStr).Some? && file.Some? && statOk && link.opens
      && link.acceptedWrites >= |Transmission(filePath, file.value)|
    ensures a.err == Some(StatFailed) <==> Decode(peerIdStr).Some? && file.Some? && !statOk
    ensures a.err == Some(StreamOpenFailed) <==> Decode(peerIdStr).Some? && file.Some? && statOk && !link.opens
    ensures a.err == Some(MetadataWriteFailed) <==>
      Decode(peerIdStr).Some? && file.Some? && statOk && link.opens && link.acceptedWrites == 0
    ensures a.err == Some(DataWriteFailed) <==>
      && Decode(peerIdStr).Some? && file.Some? && statOk && link.opens
      && 0 < link.acceptedWrites < |Transmission(filePath, file.value)|
    ensures a.err == Some(DataWriteFailed) ==> a.written == Transmission(filePath, file.value)[..link.acceptedWrites]
  {
    if Decode(peerIdStr).None? then Attempt(Some(InvalidPeerId), false, false, [])
    else if file.None? then Attempt(Some(OpenFailed(filePath)), true, false, [])
    else if !statOk then Attempt(Some(StatFailed), true, false, [])
    else if !link.opens then Attempt(Some(StreamOpenFailed), true, false, [])
    else
      var writes := Transmission(filePath, file.value);
      ConcatAppend([Base(filePath)], Chunks(file.value));
      if link.acceptedWrites == 0 then Attempt(Some(MetadataWriteFailed), true, true, [])
      else if link.acceptedWrites < |writes| then Attempt(Some(DataWriteFailed), true, true, writes[..link.acceptedWrites])
      else Attempt(None, true, true, writes)
  }

  /**
   * Whatever the chunking, a successful send that the transport delivers is
   * received byte for byte: the name the receiver reads followed by the
   * content it stores is the sender's base name followed by the file's content.
   */
  lemma TransferConserves(uploadDir: Bytes, peerIdStr: Bytes, filePath: Bytes, content: Bytes, link: Link, s: Stream, room: nat)
    requires SendFile(peerIdStr, filePath, Some(content), true, link).err == None
    requires Delivers(SendFile(peerIdStr, filePath, Some(content), true, link).written, s)
    requires |Base(filePath) + content| <= room
    ensures HandleFileTransferStream(uploadDir, s, true, room).Written?
    ensures HandleFileTransferStream(uploadDir, s, true, room).complete
    ensures HandleFileTransferStream(uploadDir, s, true, room).name + HandleFileTransferStream(uploadDir, s, true, room).content
      == Base(filePath) + content
  {
  }

  /**
   * When the name arrives as a chunk of its own and fits the buffer, the
   * receiver stores exactly the file's content under the sender's base name,
   * and its path's base name is that name.
   */
  lemma TransferRoundTrip(uploadDir: Bytes, peerIdStr: Bytes, filePath: Bytes, content: Bytes, link: Link, s: Stream, room: nat)
    requires SendFile(peerIdStr, filePath, Some(content), true, link).err == None
    requires Delivers(SendFile(peerIdStr, filePath, Some(content), true, link).written, s)
    requires |Base(filePath) + content| <= room
    requires s.pending != [] && s.pending[0] == Base(filePath) && |Base(filePath)| <= MetadataBufferSize
    ensures HandleFileTransferStream(uploadDir, s, true, room) ==
      Written(Base(filePath), GetReceivedFilePath(uploadDir, Base(filePath)), content, true)
  {
    TransferConserves(uploadDir, peerIdStr, filePath, content, link, s, room);
    var r := HandleFileTransferStream(uploadDir, s, true, room);
    assert r.name == Base(filePath);
    assert (r.name + r.content)[|r.name|..] == r.content;
    assert (Base(filePath) + content)[|Base(filePath)|..] == content;
  }

  /**
   * The receiver recovers the name exactly when it recovers the content: a
   * first chunk that carries more than the name, or less, corrupts both.
   */
  lemma NameIffContent(uploadDir: Bytes, peerIdStr: Bytes, filePath: Bytes, content: Bytes, link: Link, s: Stream, room: nat)
    requires SendFile(peerIdStr, filePath, Some(content), true, link).err == None
    requires Delivers(SendFile(peerIdStr, filePath, Some(content), true, link).written, s)
    requires |Base(filePath) + content| <= room
    ensures HandleFileTransferStream(uploadDir, s, true, room).name == Base(filePath)
       <==> HandleFileTransferStream(uploadDir, s, true, room).content == content
  {
    TransferConserves(uploadDir, peerIdStr, filePath, content, link, s, room);
    var r := HandleFileTransferStream(uploadDir, s, true, room);
    var name := Base(filePath);
    if r.content == content {
      assert |r.name| == |name|;
      assert (r.name + r.content)[..|name|] == r.name;
      assert (name + content)[..|name|] == name;
    }
    if r.name == name {
      assert (r.name + r.content)[|name|..] == r.content;
      assert (name + content)[|name|..] == content;
    }
  }

  /** A transport that coalesces the name "a" and the content "b" into one chunk makes the receiver create "ab", empty. */
  lemma CoalescedChunkLosesName(uploadDir: Bytes, room: nat)
    ensures HandleFileTransferStream(uploadDir, Stream([Ascii("ab")], Closed), true, room)
      == Written(Ascii("ab"), GetReceivedFilePath(uploadDir, Ascii("ab")), [], true)
  {
    assert Read(Stream([Ascii("ab")], Closed), MetadataBufferSize).1.pending == [];
  }

  /** An entry of the upload directory as `os.ReadDir` lists it. */
  datatype DirEntry = DirEntry(name: Bytes, isDir: bool)

  datatype ListError = ReadDirFailed

  /** The names of the entries that are not directories, in listing order. */
  function FileNames(entries: seq<DirEntry>): seq<Bytes> {
    if entries == [] then []
    else
      var last := entries[|entries| - 1];
      FileNames(entries[..|entries| - 1]) + (if last.isDir then [] else [last.name])
  }

  /** `FileNames` keeps exactly the names of non-directory entries, never more names than entries. */
  lemma {:induction false} FileNamesContents(entries: seq<DirEntry>)
    ensures forall n :: n in FileNames(entries) ==> exists e :: e in entries && !e.isDir && e.name == n
    ensures forall e :: e in entries && !e.isDir ==> e.name in FileNames(entries)
    ensures |FileNames(entries)| <= |entries|
  {
    if entries != [] {
      var front, last := entries[..|entries| - 1], entries[|entries| - 1];
      assert entries == front + [last];
      FileNamesContents(front);
      forall n | n in FileNames(entries) ensures exists e :: e in entries && !e.isDir && e.name == n {
        if n in FileNames(front) {
          var e :| e in front && !e.isDir && e.name == n;
          assert e in entries;
        } else {
          assert !last.isDir && last.name == n;
        }
      }
      forall e | e in entries && !e.isDir ensures e.name in FileNames(entries) {
        if e != last {
          assert e in front;
        }
      }
    }
  }

  /** `os.ReadDir` lists entries sorted by name, and `FileNames` keeps that order. */
  lemma {:induction false} FileNamesSorted(entries: seq<DirEntry>)
    requires forall i, j :: 0 <= i < j < |entries| ==> LexLess(entries[i].name, entries[j].name)
    ensures forall i, j :: 0 <= i < j < |FileNames(entries)| ==> LexLess(FileNames(entries)[i], FileNames(entries)[j])
  {
    if entries != [] {
      var front, last := entries[..|entries| - 1], entries[|entries| - 1];
      FileNamesSorted(front);
      var frontNames := FileNames(front);
      if !last.isDir {
        FileNamesContents(front);
        forall i | 0 <= i < |frontNames| ensures LexLess(frontNames[i], last.name) {
          assert frontNames[i] in frontNames;
          var e :| e in front && !e.isDir && e.name == frontNames[i];
          var k :| 0 <= k < |front| && front[k] == e;
          assert entries[k] == e;
        }
      }
    }
  }

  /**
   * `ListReceivedFiles`: the names of the upload directory's entries that
   * are not directories, or an error when the directory cannot be read
   * (`listing` is `os.ReadDir`'s answer).
   */
  method ListReceivedFiles(listing: Option<seq<DirEntry>>) returns (r: Result<seq<Bytes>, ListError>)
    ensures listing.None? ==> r == Err(ReadDirFailed)
    ensures listing.Some? ==> r == Ok(FileNames(listing.value))
  {
    if listing.None? {
      return Err(ReadDirFailed);
    }
    var files := listing.value;
    var fileNames: seq<Bytes> := [];
    for i := 0 to |files|
      invariant fileNames == FileNames(files[..i])
    {
      assert files[..i + 1][..i] == files[..i];
      if !files[i].isDir {
        fileNames := fileNames + [files[i].name];
      }
    }
    assert files[..|files|] == files;
    return Ok(fileNames);
  }
}
