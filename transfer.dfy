/**
 * The byte streams the file and directory senders write to a connected peer
 * (main.py lines 76-112). There is no length prefix anywhere: the receiver
 * sees `FILE` or `DIRECTORY`, then names and contents run together, and the
 * stream ends when the sender closes the socket.
 */
module Transfer {
  import opened Wrappers
  import opened Encoding
  import opened Announcement

  /** `file.read(1024)`: the most bytes one read hands to one `send`. */
  const ChunkSize: nat := 1024

  /** `b'FILE'` */
  const FileTag: Bytes := [0x46, 0x49, 0x4C, 0x45]

  /** `b'DIRECTORY'` */
  const DirectoryTag: Bytes := [0x44, 0x49, 0x52, 0x45, 0x43, 0x54, 0x4F, 0x52, 0x59]

  /**
   * One connection attempt to one peer: what reached the peer's socket, and
   * whether the sender reported success (the "Sent to"/"File sent to"/
   * "Directory sent to" line) rather than printing the failure.
   */
  datatype Attempt = Attempt(peer: Address, received: Bytes, sent: bool)

  function Flatten(chunks: seq<Bytes>): Bytes
  {
    if chunks == [] then [] else chunks[0] + Flatten(chunks[1..])
  }

  lemma {:induction false} FlattenAppend(chunks: seq<Bytes>, c: Bytes)
    ensures Flatten(chunks + [c]) == Flatten(chunks) + c
  {
    if chunks != [] {
      assert (chunks + [c])[1..] == chunks[1..] + [c];
      FlattenAppend(chunks[1..], c);
    }
  }

  /** `file.read(size)` on a file holding `contents`, positioned at `pos`: up to `size` bytes, fewer only at the end. */
  function Read(contents: Bytes, pos: nat, size: nat): (r: Bytes)
    requires pos <= |contents|
    ensures |r| == if pos + size <= |contents| then size else |contents| - pos
    ensures r == contents[pos..pos + |r|]
  {
    if pos + size <= |contents| then contents[pos..pos + size] else contents[pos..]
  }

  /**
   * The `while data:` loop shared by both senders: read a chunk, send it,
   * read the next, until a read comes back empty. Every byte is sent once
   * and in order, in non-empty chunks of at most 1024 bytes, all of them
   * full except the last.
   */
  method SendContents(contents: Bytes) returns (sent: Bytes, chunks: seq<Bytes>)
    ensures sent == contents
    ensures Flatten(chunks) == contents
    ensures forall i :: 0 <= i < |chunks| ==> 0 < |chunks[i]| <= ChunkSize
    ensures forall i :: 0 <= i < |chunks| - 1 ==> |chunks[i]| == ChunkSize
    ensures |chunks| == (|contents| + ChunkSize - 1) / ChunkSize
  {
    var pos := 0;
    sent, chunks := [], [];
    var data := Read(contents, pos, ChunkSize);
    while data != []
      invariant pos <= |contents|
      invariant data == Read(contents, pos, ChunkSize)
      invariant sent == contents[..pos] == Flatten(chunks)
      invariant forall i :: 0 <= i < |chunks| ==> 0 < |chunks[i]| <= ChunkSize
      invariant forall i :: 0 <= i < |chunks| - 1 ==> |chunks[i]| == ChunkSize
      invariant pos < |contents| ==> pos == ChunkSize * |chunks|
      invariant pos < |contents| ==> forall i :: 0 <= i < |chunks| ==> |chunks[i]| == ChunkSize
      invariant |chunks| == (pos + ChunkSize - 1) / ChunkSize
      decreases |contents| - pos
    {
      FlattenAppend(chunks, data);
      sent := sent + data;
      chunks := chunks + [data];
      pos := pos + |data|;
      data := Read(contents, pos, ChunkSize);
    }
  }

  // ---------------------------------------------------------------- one file

  /**
   * What a connected peer receives from `send_file_to_all_peers`: `FILE`, the
   * encoded base name, the contents. When the file cannot be opened the
   * exception comes after the name was sent, so the stream stops there.
   */
  function FileStream(name: Bytes, file: Option<Bytes>): (r: Bytes)
    ensures |r| == |FileTag| + |name| + if file.Some? then |file.value| else 0
    ensures r[..|FileTag| + |name|] == FileTag + name
    ensures file.Some? ==> r[|FileTag| + |name|..] == file.value
  {
    FileTag + name + (if file.Some? then file.value else [])
  }

  /** The per-peer body of `send_file_to_all_peers` once `connect` succeeded. */
  method SendFile(name: Bytes, file: Option<Bytes>) returns (stream: Bytes, ok: bool)
    ensures ok <==> file.Some?
    ensures stream == FileStream(name, file)
    ensures ok ==> stream[|FileTag| + |name|..] == file.value
  {
    stream := FileTag;
    stream := stream + name;
    match file
    case None =>
      ok := false;
    case Some(contents) =>
      var sent, _ := SendContents(contents);
      stream := stream + sent;
      ok := true;
  }

  /**
   * Nothing marks where the name ends: moving the first bytes of the contents
   * to the end of the name leaves the stream unchanged.
   */
  lemma FileNameBoundaryLost(name: Bytes, contents: Bytes, k: nat)
    requires k <= |contents|
    ensures FileStream(name + contents[..k], Some(contents[k..])) == FileStream(name, Some(contents))
  {
    assert contents == contents[..k] + contents[k..];
  }

  /**
   * Nor is a file told apart from text: the message "FILE" + x sends exactly
   * the stream of an empty file named x.
   */
  lemma TextIndistinguishableFromFile(x: string)
    ensures Encode("FILE" + x) == FileStream(Encode(x), Some([]))
  {
    EncodeAppend("FILE", x);
    EncodeAscii("FILE");
  }

  // ---------------------------------------------------------------- a directory

  /** A file `os.walk` yields: its path relative to the root, encoded, and its contents (`None`: `open` fails). */
  datatype WalkedFile = WalkedFile(relPath: Bytes, contents: Option<Bytes>)

  predicate AllReadable(files: seq<WalkedFile>) {
    forall i :: 0 <= i < |files| ==> files[i].contents.Some?
  }

  /**
   * What follows `DIRECTORY`: each file's relative path and then its
   * contents, in walk order; the first file that cannot be opened ends the
   * transfer just after its path.
   */
  function DirectoryBody(files: seq<WalkedFile>): Bytes
  {
    if files == [] then []
    else match files[0].contents
      case None => files[0].relPath
      case Some(data) => files[0].relPath + data + DirectoryBody(files[1..])
  }

  /** The first file's path always goes out, before the file is even opened. */
  lemma DirectoryBodyStartsWithPath(files: seq<WalkedFile>)
    requires files != []
    ensures files[0].relPath <= DirectoryBody(files)
  {
    var first := files[0];
    if first.contents.Some? {
      var tail := first.contents.value + DirectoryBody(files[1..]);
      assert DirectoryBody(files) == first.relPath + tail;
    }
  }

  /** The body of a concatenated walk: the second part counts only if every file of the first could be read. */
  lemma {:induction false} DirectoryBodyAppend(xs: seq<WalkedFile>, ys: seq<WalkedFile>)
    ensures DirectoryBody(xs + ys) ==
      if AllReadable(xs) then DirectoryBody(xs) + DirectoryBody(ys) else DirectoryBody(xs)
  {
    if xs != [] {
      var x := xs[0];
      assert (xs + ys)[0] == x;
      assert (xs + ys)[1..] == xs[1..] + ys;
      DirectoryBodyAppend(xs[1..], ys);
      match x.contents {
        case None =>
          assert DirectoryBody(xs + ys) == x.relPath == DirectoryBody(xs);
        case Some(data) =>
          var head := x.relPath + data;
          assert DirectoryBody(xs + ys) == head + DirectoryBody(xs[1..] + ys);
          assert DirectoryBody(xs) == head + DirectoryBody(xs[1..]);
          if AllReadable(xs) {
            assert AllReadable(xs[1..]);
            assert DirectoryBody(xs[1..] + ys) == DirectoryBody(xs[1..]) + DirectoryBody(ys);
            assert head + (DirectoryBody(xs[1..]) + DirectoryBody(ys))
                == head + DirectoryBody(xs[1..]) + DirectoryBody(ys);
          } else {
            assert !AllReadable(xs[1..]);
            assert DirectoryBody(xs[1..] + ys) == DirectoryBody(xs[1..]);
          }
      }
    } else {
      assert xs + ys == ys;
    }
  }

  /** Each file's path and contents, in walk order. */
  function Entries(files: seq<WalkedFile>): (entries: seq<Bytes>)
    requires AllReadable(files)
    ensures |entries| == |files|
  {
    seq(|files|, i requires 0 <= i < |files| => files[i].relPath + files[i].contents.value)
  }

  /** When every file can be read, the body is all paths and contents laid end to end in walk order. */
  lemma {:induction false} DirectoryBodyIsConcatenation(files: seq<WalkedFile>)
    requires AllReadable(files)
    ensures DirectoryBody(files) == Flatten(Entries(files))
  {
    if files != [] {
      assert AllReadable(files[1..]) by {
        assert forall i :: 0 <= i < |files| - 1 ==> files[1..][i] == files[i + 1];
      }
      DirectoryBodyIsConcatenation(files[1..]);
      assert Entries(files)[1..] == Entries(files[1..]);
    }
  }

  /** One more file of the walk: its path, then its contents when it can be read. */
  lemma DirectoryBodyStep(files: seq<WalkedFile>, i: nat)
    requires i < |files| && AllReadable(files[..i])
    ensures DirectoryBody(files[..i + 1]) == DirectoryBody(files[..i]) + files[i].relPath
      + (if files[i].contents.Some? then files[i].contents.value else [])
    ensures AllReadable(files[..i + 1]) <==> files[i].contents.Some?
  {
    var f := files[i];
    DirectoryBodyAppend(files[..i], [f]);
    assert files[..i] + [f] == files[..i + 1];
  }

  /** A file that cannot be opened ends the body. */
  lemma DirectoryBodyStopsAt(files: seq<WalkedFile>, i: nat)
    requires i < |files| && files[i].contents.None?
    ensures !AllReadable(files)
    ensures DirectoryBody(files) == DirectoryBody(files[..i + 1])
  {
    DirectoryBodyAppend(files[..i + 1], files[i + 1..]);
    assert files[..i + 1] + files[i + 1..] == files;
    assert files[..i + 1][i] == files[i];
  }

  /** Regrouping a concatenation of four byte strings. */
  lemma Regroup(a: Bytes, b: Bytes, c: Bytes, d: Bytes)
    ensures a + b + c + d == a + (b + c + d)
  {
  }

  /** The body of `send_directory_to_peer` once `connect` succeeded. */
  method SendDirectory(files: seq<WalkedFile>) returns (stream: Bytes, ok: bool)
    ensures ok <==> AllReadable(files)
    ensures stream == DirectoryTag + DirectoryBody(files)
  {
    stream := DirectoryTag;
    ok := true;
    var i := 0;
    while i < |files| && ok
      invariant 0 <= i <= |files|
      invariant ok ==> AllReadable(files[..i]) && stream == DirectoryTag + DirectoryBody(files[..i])
      invariant !ok ==> !AllReadable(files) && stream == DirectoryTag + DirectoryBody(files)
    {
      var f := files[i];
      DirectoryBodyStep(files, i);
      ghost var before := DirectoryBody(files[..i]);
      stream := stream + f.relPath;
      match f.contents {
        case None =>
          DirectoryBodyStopsAt(files, i);
          Regroup(DirectoryTag, before, f.relPath, []);
          ok := false;
        case Some(data) =>
          var sent, _ := SendContents(data);
          Regroup(DirectoryTag, before, f.relPath, sent);
          stream := stream + sent;
      }
      i := i + 1;
    }
    assert ok ==> files[..i] == files;
  }

  /**
   * `send_directory_to_peer`: nothing reaches a peer that refuses the
   * connection; otherwise the directory stream, reported as sent only when
   * every file could be read.
   */
  method SendDirectoryToPeer(target: Address, files: seq<WalkedFile>, up: Address -> bool)
    returns (attempt: Attempt)
    ensures attempt.peer == target
    ensures !up(target) ==> attempt.received == [] && !attempt.sent
    ensures up(target) ==>
      attempt.received == DirectoryTag + DirectoryBody(files) && (attempt.sent <==> AllReadable(files))
  {
    if !up(target) {
      attempt := Attempt(target, [], false);
    } else {
      var stream, ok := SendDirectory(files);
      attempt := Attempt(target, stream, ok);
    }
  }

  /**
   * Nothing marks where one file ends and the next path begins: the last
   * bytes of a file may as well open the next file's path.
   */
  lemma DirectoryBoundaryLost(p1: Bytes, c1: Bytes, moved: Bytes, p2: Bytes, d2: Option<Bytes>,
                              rest: seq<WalkedFile>)
    ensures DirectoryBody([WalkedFile(p1, Some(c1 + moved)), WalkedFile(p2, d2)] + rest)
         == DirectoryBody([WalkedFile(p1, Some(c1)), WalkedFile(moved + p2, d2)] + rest)
  {
    var a := [WalkedFile(p1, Some(c1 + moved)), WalkedFile(p2, d2)] + rest;
    var b := [WalkedFile(p1, Some(c1)), WalkedFile(moved + p2, d2)] + rest;
    assert a[1..] == [WalkedFile(p2, d2)] + rest && a[1..][1..] == rest;
    assert b[1..] == [WalkedFile(moved + p2, d2)] + rest && b[1..][1..] == rest;
  }
}
