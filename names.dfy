/** 8.3 name formatting, as get_filename builds it into a 13-byte buffer. */
module Names {
  import opened Bytes
  import opened Records

  /** The backward scan of get_filename, started at position j: the first
      j' <= j (going down) whose byte j'-1 is not a space, or 8 when the
      first j bytes are all spaces. */
  function TrimFrom(name: Name8, j: nat): (n: nat)
    requires j <= 8
    ensures 1 <= n <= 8
    ensures (exists k :: 0 <= k < j && name[k] != SPACE) ==>
              n <= j && name[n - 1] != SPACE && forall k :: n <= k < j ==> name[k] == SPACE
    ensures (forall k :: 0 <= k < j ==> name[k] == SPACE) ==> n == 8
    decreases j
  {
    if j == 0 then 8 else if name[j - 1] != SPACE then j else TrimFrom(name, j - 1)
  }

  /** How many bytes of the 8-byte name are kept: up to and including the
      last non-space byte, or all 8 when the name is blank. */
  function TrimmedLength(name: Name8): nat
  {
    TrimFrom(name, 8)
  }

  /** The formatted name: the trimmed base name, a '.' unless the entry is a
      subdirectory, then the three extension bytes as they are. */
  function FormatName(e: DirEntry, isSubdirectory: bool): (r: seq<Byte>)
    ensures 4 <= |r| <= 12
    ensures r[|r| - 3..] == e.ext
    ensures !isSubdirectory ==> r[|r| - 4] == DOT
  {
    e.filename[..TrimmedLength(e.filename)] + (if isSubdirectory then [] else [DOT]) + e.ext
  }

  /** The shape of a formatted name: what is kept of the base name, where the
      dot goes, the extension at the end, and at most 12 bytes in all. */
  lemma FormatNameShape(e: DirEntry, isSubdirectory: bool)
    ensures var f, n := FormatName(e, isSubdirectory), TrimmedLength(e.filename);
      && |f| == n + (if isSubdirectory then 0 else 1) + 3
      && 4 <= |f| <= 12
      && f[..n] == e.filename[..n]
      && (forall k :: n <= k < 8 ==> e.filename[k] == SPACE)
      && (n < 8 ==> e.filename[n - 1] != SPACE)
      && (!isSubdirectory ==> f[n] == DOT)
      && f[|f| - 3..] == e.ext
  {
    var n := TrimmedLength(e.filename);
    if n < 8 {
      assert !(forall k :: 0 <= k < 8 ==> e.filename[k] == SPACE);
    }
  }

  // "TEST    ", "TXT", "ADR1    ", "   " and "TEST.TXT" as bytes.
  const TEST_NAME: Name8 := [0x54, 0x45, 0x53, 0x54, 0x20, 0x20, 0x20, 0x20]
  const TXT_EXT: Ext3 := [0x54, 0x58, 0x54]
  const ADR1_NAME: Name8 := [0x41, 0x44, 0x52, 0x31, 0x20, 0x20, 0x20, 0x20]
  const BLANK_EXT: Ext3 := [0x20, 0x20, 0x20]
  const TEST_TXT: seq<Byte> := [0x54, 0x45, 0x53, 0x54, 0x2E, 0x54, 0x58, 0x54]

  /** "TEST    " with extension "TXT" formats as "TEST.TXT". */
  lemma FormatFileExample()
    ensures FormatName(DirEntry(TEST_NAME, TXT_EXT, 0x20, 2, 5), false) == TEST_TXT
  {
    assert TrimFrom(TEST_NAME, 4) == 4;
  }

  /** A subdirectory gets no dot, but its three extension bytes are still
      appended: "ADR1    " with a blank extension formats as "ADR1   ". */
  lemma FormatSubdirectoryExample()
    ensures FormatName(DirEntry(ADR1_NAME, BLANK_EXT, ATTR_SUBDIRECTORY, 3, 0), true)
         == [0x41, 0x44, 0x52, 0x31, 0x20, 0x20, 0x20]
  {
    assert TrimFrom(ADR1_NAME, 4) == 4;
  }

  /** A blank base name is kept whole, since the scan never moves the
      extension start below 8: "        " and "TXT" give "        .TXT". */
  lemma FormatBlankNameExample()
    ensures FormatName(DirEntry([0x20, 0x20, 0x20, 0x20, 0x20, 0x20, 0x20, 0x20], TXT_EXT, 0, 2, 1), false)
         == [0x20, 0x20, 0x20, 0x20, 0x20, 0x20, 0x20, 0x20, 0x2E, 0x54, 0x58, 0x54]
  {
    var name: Name8 := [0x20, 0x20, 0x20, 0x20, 0x20, 0x20, 0x20, 0x20];
    assert forall k :: 0 <= k < 8 ==> name[k] == SPACE;
  }

  /** The buffer get_filename leaves, given the 8 copied name bytes and
      the buffer after the dot, the extension and the terminator are put. */
  predicate Assembled(e: DirEntry, isSubdirectory: bool, copied: seq<Byte>, after: seq<Byte>)
    requires |copied| == 13
  {
    var n, start := TrimmedLength(e.filename), TrimmedLength(e.filename) + (if isSubdirectory then 0 else 1);
    var put := if isSubdirectory then copied else copied[n := DOT];
    after == put[..start] + e.ext + put[start + 3..12] + [0]
  }

  /** That buffer begins with the formatted name. */
  lemma AssembledName(e: DirEntry, isSubdirectory: bool, before: seq<Byte>, copied: seq<Byte>, after: seq<Byte>)
    requires |before| == 13 && copied == e.filename + before[8..]
    requires Assembled(e, isSubdirectory, copied, after)
    ensures var f := FormatName(e, isSubdirectory);
      |after| == 13 && after[..|f|] == f
  {
    FormatNameShape(e, isSubdirectory);
  }

  /** Past the formatted name it holds the copied trailing spaces up to
      index 8, the caller's bytes from 8 to 11, and 0 at index 12. */
  lemma AssembledTail(e: DirEntry, isSubdirectory: bool, before: seq<Byte>, copied: seq<Byte>, after: seq<Byte>)
    requires |before| == 13 && copied == e.filename + before[8..]
    requires Assembled(e, isSubdirectory, copied, after)
    ensures var f := FormatName(e, isSubdirectory);
      && |after| == 13
      && (forall k :: |f| <= k < 8 ==> after[k] == SPACE)
      && (forall k :: 8 <= k < 12 && |f| <= k ==> after[k] == before[k])
      && after[12] == 0
  {
    FormatNameShape(e, isSubdirectory);
  }

  /** get_filename: copy the 8 name bytes, scan back for the last non-space,
      put a '.' there unless the entry is a subdirectory, copy the extension
      after it and terminate at index 12. Bytes past the formatted name up
      to index 8 are the copied trailing spaces; bytes 8..11 that the name
      does not reach keep what the caller's buffer held. */
  method GetFilename(entry: DirEntry, buf: array<Byte>, isSubdirectory: bool)
    requires buf.Length == 13
    modifies buf
    ensures var f := FormatName(entry, isSubdirectory);
      && buf[..|f|] == f
      && (forall k :: |f| <= k < 8 ==> buf[k] == SPACE)
      && (forall k :: 8 <= k < 12 && |f| <= k ==> buf[k] == old(buf[k]))
      && buf[12] == 0
  {
    forall k | 0 <= k < 8 {
      buf[k] := entry.filename[k];
    }
    ghost var copied := buf[..];
    assert copied == entry.filename + old(buf[..])[8..];
    var startOfExt := ScanNameEnd(entry.filename);
    PutExtension(entry, buf, isSubdirectory, startOfExt);
    AssembledName(entry, isSubdirectory, old(buf[..]), copied, buf[..]);
    AssembledTail(entry, isSubdirectory, old(buf[..]), copied, buf[..]);
  }

  /** The backward scan of get_filename: from the last of the 8 name bytes
      down, stop after the first one that is not a space; start_of_ext
      stays 8 when all of them are spaces. */
  method ScanNameEnd(name: Name8) returns (startOfExt: nat)
    ensures startOfExt == TrimmedLength(name)
  {
    startOfExt := 8;
    var i := 0;
    while i < 8
      invariant 0 <= i <= 8
      invariant startOfExt == 8
      invariant TrimmedLength(name) == TrimFrom(name, 8 - i)
    {
      if name[7 - i] != SPACE {
        startOfExt := 8 - i;
        break;
      }
      i := i + 1;
    }
  }

  /** The tail of get_filename: the '.' at start unless the entry is a
      subdirectory, the three extension bytes after it, and 0 at index 12. */
  method PutExtension(entry: DirEntry, buf: array<Byte>, isSubdirectory: bool, start: nat)
    requires buf.Length == 13 && start <= 8
    modifies buf
    ensures var put := if isSubdirectory then old(buf[..]) else old(buf[..])[start := DOT];
            var extStart := if isSubdirectory then start else start + 1;
            buf[..] == put[..extStart] + entry.ext + put[extStart + 3..12] + [0]
  {
    var startOfExt := start;
    if !isSubdirectory {
      buf[startOfExt] := DOT;
      startOfExt := startOfExt + 1;
    }
    ghost var dotted := buf[..];
    forall k | 0 <= k < 3 {
      buf[startOfExt + k] := entry.ext[k];
    }
    assert buf[..12] == dotted[..startOfExt] + entry.ext + dotted[startOfExt + 3..12];
    buf[12] := 0;
    assert buf[..] == buf[..12] + [0];
  }
}
