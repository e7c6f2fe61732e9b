/** The root listing of dir: which records count, how files and
    directories are told apart, and what the size total adds up. */
module Listing {
  import opened Bytes
  import opened Records

  /** print_file without its output: whether the record is a subdirectory,
      and the running size total after it. */
  function PrintFile(entry: DirEntry, fileSize: int): (r: (bool, int))
    ensures r.0 <==> (entry.attributes as bv8) & 0x10 != 0
    ensures r.1 >= fileSize && (r.1 > fileSize ==> IsUsed(entry))
  {
    SubdirectoryBitIsMask(entry.attributes);
    var subdirectory := IsSubdirectory(entry.attributes);
    if IsUsed(entry) then (subdirectory, fileSize + entry.fileSize) else (subdirectory, fileSize)
  }

  /** print_file reports a subdirectory exactly when the attribute byte,
      taken modulo 0x20, is at least 0x10 — only bit 4 decides — and adds the
      record's file_size to the total exactly when the record is used. */
  lemma PrintFileResult(e: DirEntry, fileSize: int)
    ensures PrintFile(e, fileSize).0 <==> 0x10 <= e.attributes % 0x20
    ensures PrintFile(e, fileSize).1 == fileSize + if e.filename[0] != 0 then e.fileSize else 0
  {
    var a := e.attributes;
    assert a == 0x20 * (a / 0x20) + a % 0x20;
    assert a / 0x10 == 2 * (a / 0x20) + (a % 0x20) / 0x10;
  }

  /** The bit test is the C expression (attributes & 0x10) != 0, for every
      attribute byte. */
  lemma SubdirectoryBitIsMask(a: Byte)
    ensures IsSubdirectory(a) <==> (a as bv8) & 0x10 != 0
  {
    var b := a as bv8;
    var hi, lo := (b >> 5) as int, (b & 0x1F) as int;
    assert a == 0x20 * hi + lo;
    assert (b & 0x10 != 0) <==> lo >= 0x10;
    assert a / 0x10 == 2 * hi + lo / 0x10;
  }

  /** Directory (0x10), directory with the archive bit (0x30), archive only
      (0x20) and every bit below 0x10 (0x0F). */
  lemma SubdirectoryBitExamples()
    ensures IsSubdirectory(0x10) && IsSubdirectory(0x30)
    ensures !IsSubdirectory(0x20) && !IsSubdirectory(0x0F)
  {
  }

  /** The used records, in order: those whose first name byte is not 0x00.
      Deleted records (0xE5) are used records here. */
  function UsedEntries(es: seq<DirEntry>): (r: seq<DirEntry>)
    ensures |r| <= |es|
  {
    if es == [] then []
    else
      var last := es[|es| - 1];
      UsedEntries(es[..|es| - 1]) + (if IsUsed(last) then [last] else [])
  }

  /** How many of the records carry the subdirectory bit. */
  function CountSubdirectories(es: seq<DirEntry>): (n: nat)
    ensures n <= |es|
  {
    if es == [] then 0
    else CountSubdirectories(es[..|es| - 1]) + (if IsSubdirectory(es[|es| - 1].attributes) then 1 else 0)
  }

  /** The sum of file_size over the records. */
  function TotalSize(es: seq<DirEntry>): nat
  {
    if es == [] then 0 else TotalSize(es[..|es| - 1]) + es[|es| - 1].fileSize
  }

  /** UsedEntries keeps every used record and nothing else. */
  lemma {:induction false} UsedEntriesFilters(es: seq<DirEntry>)
    ensures forall e :: e in UsedEntries(es) ==> e in es && IsUsed(e)
    ensures forall i :: 0 <= i < |es| && IsUsed(es[i]) ==> es[i] in UsedEntries(es)
  {
    if es != [] {
      var init := es[..|es| - 1];
      UsedEntriesFilters(init);
      assert forall i :: 0 <= i < |es| - 1 ==> es[i] == init[i];
    }
  }

  /** Filtering distributes over concatenation. */
  lemma {:induction false} UsedEntriesAppend(a: seq<DirEntry>, b: seq<DirEntry>)
    ensures UsedEntries(a + b) == UsedEntries(a) + UsedEntries(b)
    decreases |b|
  {
    if b == [] {
      assert a + b == a;
    } else {
      var b' := b[..|b| - 1];
      assert (a + b)[..|a + b| - 1] == a + b';
      UsedEntriesAppend(a, b');
    }
  }

  /** One more record read by dir: the used records grow by it exactly
      when it is used, and the subdirectory count and the size total grow
      with them. */
  lemma ListingStep(es: seq<DirEntry>, i: nat)
    requires i < |es|
    ensures var before, after := UsedEntries(es[..i]), UsedEntries(es[..i + 1]);
      && (IsUsed(es[i]) ==>
            && after == before + [es[i]]
            && CountSubdirectories(after) == CountSubdirectories(before) + (if IsSubdirectory(es[i].attributes) then 1 else 0)
            && TotalSize(after) == TotalSize(before) + es[i].fileSize)
      && (!IsUsed(es[i]) ==> after == before)
  {
    var before := UsedEntries(es[..i]);
    assert es[..i + 1][..i] == es[..i];
    if IsUsed(es[i]) {
      assert (before + [es[i]])[..|before|] == before;
    }
  }

  /** dir's three counters after the first i records: used records without
      and with the subdirectory bit, and the sum of the used records' sizes. */
  function FilesBelow(es: seq<DirEntry>, i: nat): nat
    requires i <= |es|
  {
    if i == 0 then 0
    else FilesBelow(es, i - 1) + (if IsUsed(es[i - 1]) && !IsSubdirectory(es[i - 1].attributes) then 1 else 0)
  }

  function DirsBelow(es: seq<DirEntry>, i: nat): nat
    requires i <= |es|
  {
    if i == 0 then 0
    else DirsBelow(es, i - 1) + (if IsUsed(es[i - 1]) && IsSubdirectory(es[i - 1].attributes) then 1 else 0)
  }

  function SizeBelow(es: seq<DirEntry>, i: nat): nat
    requires i <= |es|
  {
    if i == 0 then 0
    else SizeBelow(es, i - 1) + (if IsUsed(es[i - 1]) then es[i - 1].fileSize else 0)
  }

  /** The counters are the listing of the used records: files and
      directories together number the used records, the directories are the
      used records with the subdirectory bit, the size is their total. */
  lemma CountersMatchListing(es: seq<DirEntry>, i: nat)
    requires i <= |es|
    ensures var used := UsedEntries(es[..i]);
      && FilesBelow(es, i) + DirsBelow(es, i) == |used|
      && DirsBelow(es, i) == CountSubdirectories(used)
      && SizeBelow(es, i) == TotalSize(used)
  {
    RecordsCounted(es, i);
    DirectoriesCounted(es, i);
    SizesSummed(es, i);
  }

  lemma {:induction false} RecordsCounted(es: seq<DirEntry>, i: nat)
    requires i <= |es|
    ensures FilesBelow(es, i) + DirsBelow(es, i) == |UsedEntries(es[..i])|
  {
    if i > 0 {
      RecordsCounted(es, i - 1);
      ListingStep(es, i - 1);
    }
  }

  lemma {:induction false} DirectoriesCounted(es: seq<DirEntry>, i: nat)
    requires i <= |es|
    ensures DirsBelow(es, i) == CountSubdirectories(UsedEntries(es[..i]))
  {
    if i > 0 {
      DirectoriesCounted(es, i - 1);
      ListingStep(es, i - 1);
    }
  }

  lemma {:induction false} SizesSummed(es: seq<DirEntry>, i: nat)
    requires i <= |es|
    ensures SizeBelow(es, i) == TotalSize(UsedEntries(es[..i]))
  {
    if i > 0 {
      SizesSummed(es, i - 1);
      ListingStep(es, i - 1);
    }
  }

  /** A never-used record (first byte 0x00) is skipped without ending the
      scan: the records after it are still listed. */
  lemma UnusedRecordDoesNotEndScan(before: seq<DirEntry>, unused: DirEntry, after: seq<DirEntry>)
    requires unused.filename[0] == 0
    ensures UsedEntries(before + [unused] + after) == UsedEntries(before) + UsedEntries(after)
  {
    var x := before + [unused];
    assert x[..|x| - 1] == before;
    assert UsedEntries(x) == UsedEntries(before);
    UsedEntriesAppend(x, after);
  }

  /** A deleted record (first byte 0xE5) is listed like any other. */
  lemma DeletedRecordIsListed(before: seq<DirEntry>, deleted: DirEntry, after: seq<DirEntry>)
    requires deleted.filename[0] == 0xE5
    ensures UsedEntries(before + [deleted] + after) == UsedEntries(before) + [deleted] + UsedEntries(after)
  {
    var x := before + [deleted];
    assert x[..|x| - 1] == before;
    assert UsedEntries(x) == UsedEntries(before) + [deleted];
    UsedEntriesAppend(x, after);
  }
}
