/** Finding the end-of-central-directory record of a ZIP file (section 4.3.16 of PKWARE
    APPNOTE): a scan backwards over the last 65536 bytes. */
module ZipEnd {
  import opened Bits
  import opened Grammar
  import opened MemStream
  import opened OutStream

  function Little16(s: seq<byte>, at: nat): nat
    requires at + 1 < |s|
  {
    s[at] as nat + 256 * (s[at + 1] as nat)
  }

  /** Whether a directory record starts here and its comment ends with the file. */
  predicate IsValidDirectory(s: seq<byte>) {
    && |s| > 21
    && Little16(s, 0) + 65536 * Little16(s, 2) == 0x06054b50
    && Little16(s, 20) + 22 == |s|
  }

  /** A record as it stands in a file: the signature P K 5 6, sixteen bytes about the archive, the
      length of the comment, low byte first, and the comment. */
  function Record(archive: seq<byte>, comment: seq<byte>): seq<byte>
    requires |archive| == 16 && |comment| < 0x1_0000
  {
    [0x50, 0x4b, 5, 6] + archive + [|comment| % 256, |comment| / 256] + comment
  }

  ghost predicate IsRecord(s: seq<byte>) {
    exists archive: seq<byte>, comment: seq<byte> ::
      |archive| == 16 && |comment| < 0x1_0000 && s == Record(archive, comment)
  }

  lemma SignatureBytes(a: byte, b: byte, c: byte, d: byte)
    ensures a + 256 * b + 65536 * (c + 256 * d) == 0x06054b50 <==> a == 0x50 && b == 0x4b && c == 5 && d == 6
  {
  }

  lemma RecordAt(archive: seq<byte>, comment: seq<byte>)
    requires |archive| == 16 && |comment| < 0x1_0000
    ensures IsValidDirectory(Record(archive, comment))
  {
    var s := Record(archive, comment);
    assert s[0] == 0x50 && s[1] == 0x4b && s[2] == 5 && s[3] == 6;
    assert s[20] == |comment| % 256 && s[21] == |comment| / 256;
  }

  /** A directory is accepted exactly when it is a record to the last byte of its comment. */
  lemma ValidWhen(s: seq<byte>)
    ensures IsValidDirectory(s) <==> IsRecord(s)
  {
    if IsValidDirectory(s) {
      SignatureBytes(s[0], s[1], s[2], s[3]);
      var archive, comment := s[4..20], s[22..];
      assert [s[20], s[21]] == [|comment| % 256, |comment| / 256];
      assert s == [s[0], s[1], s[2], s[3]] + archive + [s[20], s[21]] + comment;
      assert s == Record(archive, comment);
    }
    if IsRecord(s) {
      var archive: seq<byte>, comment: seq<byte> :|
        |archive| == 16 && |comment| < 0x1_0000 && s == Record(archive, comment);
      RecordAt(archive, comment);
    }
  }

  predicate Inspected(s: seq<byte>, off: nat) {
    off + 22 <= |s| <= off + 65536
  }

  /** The last offset in the window where a valid directory starts. */
  ghost predicate Found(s: seq<byte>, off: nat) {
    && Inspected(s, off) && IsValidDirectory(s[off..])
    && forall k | off < k <= |s| :: !IsValidDirectory(s[k..])
  }

  ghost predicate HasDirectory(s: seq<byte>) {
    exists k: nat :: Inspected(s, k) && IsValidDirectory(s[k..])
  }

  /** The two streams the file is split into. */
  datatype Split = Split(file: seq<byte>, directory: seq<byte>)

  /** Scans the whole stream, wherever its cursor is in it, and splits it at the directory found;
      the stream itself is then at its end. */
  method EndOfDirectoryParse(entire: NailMemStream) returns (r: Option<Split>)
    requires entire.Valid()
    modifies entire
    ensures r.Some? ==> r.value.file + r.value.directory == entire.Bytes() && Found(entire.Bytes(), |r.value.file|)
    ensures r.Some? <==> old(entire.bitOffset) == 0 && HasDirectory(entire.Bytes())
    ensures entire.Valid() && entire.At() == if r.Some? then |entire.Input()| else old(entire.At())
  {
    r := None;
    if entire.bitOffset == 0 {
      var data, end := entire.data, entire.data.Length;
      var ch := end - 22;
      while ch >= 0 && ch >= end - 65536
        invariant ch <= end - 22
        invariant forall k | 0 <= k <= end && ch < k :: !IsValidDirectory(data[..][k..])
      {
        assert data[..][ch..] == data[ch..];
        if IsValidDirectory(data[ch..]) {
          assert Inspected(data[..], ch);
          entire.Rewind(Pos(end, 0));
          return Some(Split(data[..ch], data[ch..]));
        }
        ch := ch - 1;
      }
    }
  }

  /** The generator appends the directory to the file data, byte by byte. */
  method EndOfDirectoryGenerate(file: NailOutStream, directory: seq<byte>)
    requires file.Valid()
    modifies file, file.data
    ensures file.Valid() && file.bitOffset == old(file.bitOffset) && file.pos == old(file.pos) + |directory|
    ensures file.data[..file.pos] == old(file.data[..file.pos]) + directory
  {
    file.AppendBytes(directory);
  }

  /** The scan recovers the split the generator made exactly when the directory is a record, no
      longer than the window, and no proper suffix of it is one. */
  lemma SplitRecovered(file: seq<byte>, directory: seq<byte>)
    ensures Found(file + directory, |file|)
       <==> && IsRecord(directory) && |directory| <= 65536
            && forall k | 0 < k <= |directory| :: !IsRecord(directory[k..])
  {
    ValidWhen(directory);
    forall k | 0 < k <= |directory| ensures IsValidDirectory(directory[k..]) <==> IsRecord(directory[k..]) {
      ValidWhen(directory[k..]);
    }
    hide IsRecord, IsValidDirectory;
    SplitFound(file, directory);
  }

  lemma SplitFound(file: seq<byte>, directory: seq<byte>)
    ensures Found(file + directory, |file|)
       <==> && IsValidDirectory(directory) && |directory| <= 65536
            && forall k | 0 < k <= |directory| :: !IsValidDirectory(directory[k..])
  {
    var s := file + directory;
    assert s[|file|..] == directory;
    forall k | 0 <= k <= |directory| ensures s[|file| + k..] == directory[k..] {
    }
    if Found(s, |file|) {
      forall k | 0 < k <= |directory| ensures !IsValidDirectory(directory[k..]) {
        assert s[|file| + k..] == directory[k..];
      }
    }
    if IsValidDirectory(directory) && |directory| <= 65536
       && forall k | 0 < k <= |directory| :: !IsValidDirectory(directory[k..]) {
      forall k | |file| < k <= |s| ensures !IsValidDirectory(s[k..]) {
        assert s[k..] == directory[k - |file|..];
      }
    }
  }

  /** There is one answer at most. */
  lemma SplitIsUnique(s: seq<byte>, off: nat, other: nat)
    requires Found(s, off) && Found(s, other)
    ensures off == other
  {
  }
}
