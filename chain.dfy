/** The FAT cluster chain and the number of bytes read_file emits along it,
    as a closed form independent of read_file's chunked loop. */
module Chain {
  import opened Bytes

  /** The only link value read_file treats as the end of a chain. */
  const END_OF_CHAIN: U16 := 0xFFFF
  /** sizeof(buffer) in read_file. */
  const BUFFER_SIZE: nat := 255

  /** fat[cluster]. A cluster past the table reads as 0 here; a read the
      model admits never follows such a link. */
  function Link(fat: seq<U16>, cluster: U16): U16
  {
    if cluster < |fat| then fat[cluster] else 0
  }

  /** The j-th cluster of the chain that starts at c0: c0, fat[c0], ... */
  function ChainAt(fat: seq<U16>, c0: U16, j: nat): U16
    decreases j
  {
    if j == 0 then c0 else Link(fat, ChainAt(fat, c0, j - 1))
  }

  /** The first chain index in [j, bound) holding 0xFFFF, or bound. */
  function FirstEnd(fat: seq<U16>, c0: U16, j: nat, bound: nat): (r: nat)
    requires j <= bound
    ensures j <= r <= bound
    ensures forall i :: j <= i < r ==> ChainAt(fat, c0, i) != END_OF_CHAIN
    ensures r < bound ==> ChainAt(fat, c0, r) == END_OF_CHAIN
    decreases bound - j
  {
    if j == bound then bound
    else if ChainAt(fat, c0, j) == END_OF_CHAIN then j
    else FirstEnd(fat, c0, j + 1, bound)
  }

  /** int file_left = entry.file_size: the 32-bit size read as a signed int,
      so sizes of 2 GiB and more start the loop negative. */
  function SignedFileSize(size: U32): (n: int)
    ensures -0x8000_0000 <= n < 0x8000_0000
    ensures n % 0x1_0000_0000 == size
  {
    if size < 0x8000_0000 then size else size - 0x1_0000_0000
  }

  /** Clusters a file of n bytes occupies: the least k with n <= k * s. */
  function NeededClusters(n: int, s: nat): (k: nat)
    requires s > 0
    ensures n <= 0 ==> k == 0
    ensures n > 0 ==> k >= 1 && (k - 1) * s < n <= k * s
  {
    if n <= 0 then 0
    else
      var q := (n - 1) / s;
      assert n - 1 == q * s + (n - 1) % s;
      q + 1
  }

  /** Where a cluster's short last chunk starts: 255-byte reads from the
      cluster start stop fitting at the last multiple of 255. */
  function TailStart(s: nat): nat
  {
    s - s % BUFFER_SIZE
  }

  /** Bytes emitted when the chain supplies every cluster the file needs:
      exactly n, except when the file ends inside the short last chunk of its
      last cluster, which is then read whole. */
  function FinalLength(n: int, s: nat): nat
    requires s > 0
  {
    if n <= 0 then 0
    else
      var k := NeededClusters(n, s);
      if n - (k - 1) * s > TailStart(s) then k * s else n
  }

  /** Bytes read_file emits for a file of n bytes (after the signed
      conversion) starting at cluster c0, with s-byte clusters: whole clusters
      up to the first 0xFFFF when it comes before the file's last needed
      cluster, FinalLength otherwise. */
  function ReadLength(fat: seq<U16>, c0: U16, n: int, s: nat): nat
    requires s > 0
  {
    var need := NeededClusters(n, s);
    var e := FirstEnd(fat, c0, 0, need);
    if e < need then e * s else FinalLength(n, s)
  }

  /** Nothing is emitted for an empty file, or for one whose size reads as a
      negative int. */
  lemma EmptyReadsNothing(fat: seq<U16>, c0: U16, n: int, s: nat)
    requires s > 0 && n <= 0
    ensures ReadLength(fat, c0, n, s) == 0
  {
  }

  lemma EmptyFileSizes(size: U32)
    ensures SignedFileSize(size) <= 0 <==> size == 0 || size >= 0x8000_0000
  {
  }

  /** When no needed cluster is 0xFFFF, at least file_size bytes come out,
      and less than one buffer more: the overshoot of the tail chunk. */
  lemma ReadLengthComplete(fat: seq<U16>, c0: U16, n: int, s: nat)
    requires s > 0 && n > 0
    requires FirstEnd(fat, c0, 0, NeededClusters(n, s)) == NeededClusters(n, s)
    ensures n <= ReadLength(fat, c0, n, s) < n + BUFFER_SIZE
    ensures ReadLength(fat, c0, n, s) <= NeededClusters(n, s) * s
  {
    var k := NeededClusters(n, s);
    var r := n - (k - 1) * s;
    assert 0 < r <= s;
    if r > TailStart(s) {
      assert k * s == (k - 1) * s + s;
      assert s - r < s % BUFFER_SIZE;
    }
  }

  /** When the chain reaches 0xFFFF before the file's last needed cluster,
      exactly the whole clusters before it come out, fewer bytes than the
      file size. */
  lemma ReadLengthTruncated(fat: seq<U16>, c0: U16, n: int, s: nat)
    requires s > 0
    requires FirstEnd(fat, c0, 0, NeededClusters(n, s)) < NeededClusters(n, s)
    ensures var e := FirstEnd(fat, c0, 0, NeededClusters(n, s));
      && ReadLength(fat, c0, n, s) == e * s
      && ReadLength(fat, c0, n, s) < n
      && ChainAt(fat, c0, e) == END_OF_CHAIN
      && forall i :: 0 <= i < e ==> ChainAt(fat, c0, i) != END_OF_CHAIN
  {
    var k, e := NeededClusters(n, s), FirstEnd(fat, c0, 0, NeededClusters(n, s));
    MulMonotone(e, k - 1, s);
  }

  lemma MulMonotone(a: int, b: int, s: nat)
    requires a <= b
    ensures a * s <= b * s
  {
  }

  /** The chunk size of read_file: a full buffer, clamped to file_left,
      and then — overriding that — to cluster_left. */
  function ChunkSize(fileLeft: int, clusterLeft: int): (r: int)
    ensures r <= BUFFER_SIZE && r <= clusterLeft
    ensures r < clusterLeft ==> r <= fileLeft
    ensures fileLeft > 0 && clusterLeft > 0 ==> r > 0
  {
    if BUFFER_SIZE > clusterLeft then clusterLeft
    else if BUFFER_SIZE > fileLeft then fileLeft
    else BUFFER_SIZE
  }

  /** One pass of read_file's loop, with k whole clusters and d bytes of the
      current one emitted (d a multiple of 255 while the file is unfinished):
      the chunk stays inside the buffer and the cluster, never passes
      FinalLength, lands on it exactly when the file is finished, and
      otherwise leaves d a multiple of 255 or completes the cluster. */
  lemma ChunkStep(n: int, s: nat, k: nat, d: nat)
    requires s > 0 && n > 0
    requires d < s && d % BUFFER_SIZE == 0
    requires k * s + d < n
    ensures var b := ChunkSize(n - (k * s + d), s - d);
      && 1 <= b <= s - d && b <= BUFFER_SIZE
      && k * s + d + b <= FinalLength(n, s)
      && (k * s + d + b >= n ==> k * s + d + b == FinalLength(n, s))
      && (d + b < s ==> (d + b) % BUFFER_SIZE == 0 || k * s + d + b >= n)
  {
    var need := NeededClusters(n, s);
    assert k < need by {
      if k >= need {
        MulMonotone(need, k, s);
      }
    }
    if k + 1 < need {
      ChunkBeforeLastCluster(n, s, k, d);
    } else {
      assert (need - 1) * s == k * s && need * s == k * s + s by {
        assert need - 1 == k;
      }
      ChunkInLastCluster(n, s, d, k * s + d, k * s, FinalLength(n, s));
    }
  }

  /** ChunkStep before the file's last cluster: the chunk never reaches the
      last cluster, so it is a full buffer or completes the cluster. */
  lemma ChunkBeforeLastCluster(n: int, s: nat, k: nat, d: nat)
    requires s > 0 && n > 0 && d < s
    requires k + 1 < NeededClusters(n, s)
    ensures var b := ChunkSize(n - (k * s + d), s - d);
      && 1 <= b <= s - d && b <= BUFFER_SIZE
      && k * s + d + b < n
      && k * s + d + b <= FinalLength(n, s)
      && (d + b < s ==> b == BUFFER_SIZE)
  {
    var need := NeededClusters(n, s);
    var b := ChunkSize(n - (k * s + d), s - d);
    MulMonotone(k + 1, need - 1, s);
    assert (k + 1) * s == k * s + s;
    assert k * s + d + b <= (need - 1) * s;
  }

  /** ChunkStep in the file's last cluster, which starts at base and ends
      the file at n: the chunk stops at the file's end, or reads the
      cluster's short tail whole, landing on fl, the FinalLength. */
  lemma ChunkInLastCluster(n: int, s: nat, d: nat, m: nat, base: nat, fl: nat)
    requires s > 0 && d < s && d % BUFFER_SIZE == 0
    requires m == base + d && m < n && n <= base + s
    requires fl == if n - base > TailStart(s) then base + s else n
    ensures var b := ChunkSize(n - m, s - d);
      && 1 <= b <= s - d && b <= BUFFER_SIZE
      && m + b <= fl
      && (m + b >= n ==> m + b == fl)
      && (d + b < s ==> (d + b) % BUFFER_SIZE == 0 || m + b >= n)
  {
  }

  /** A running pass of read_file — chain clusters 0..k are not 0xFFFF and
      the file is unfinished — never takes the output past ReadLength. */
  lemma StepWithinReadLength(fat: seq<U16>, c0: U16, n: int, s: nat, k: nat, d: nat)
    requires s > 0 && n > 0
    requires d < s && d % BUFFER_SIZE == 0
    requires k * s + d < n
    requires forall j :: 0 <= j <= k ==> ChainAt(fat, c0, j) != END_OF_CHAIN
    ensures k * s + d + ChunkSize(n - (k * s + d), s - d) <= ReadLength(fat, c0, n, s)
  {
    ChunkStep(n, s, k, d);
    var need := NeededClusters(n, s);
    var e := FirstEnd(fat, c0, 0, need);
    if e < need {
      assert ChainAt(fat, c0, e) == END_OF_CHAIN;
      assert e > k;
      MulMonotone(k + 1, e, s);
      assert (k + 1) * s == k * s + s;
    }
  }

  /** The arithmetic invariant of read_file's loop, with k whole clusters
      and d bytes of the current one emitted: the current cluster is the
      k-th of the chain, none before it is 0xFFFF (nor it, once reading into
      it has begun), file_left is what is still owed, chunks start at
      multiples of 255 while the file is unfinished, and the output has not
      passed ReadLength — reaching FinalLength when the file is finished. */
  ghost predicate Reading(fat: seq<U16>, c0: U16, n: int, s: nat, k: nat, d: nat, cluster: U16, fileLeft: int)
  {
    && s > 0 && d < s
    && cluster == ChainAt(fat, c0, k)
    && (forall j :: 0 <= j < k ==> ChainAt(fat, c0, j) != END_OF_CHAIN)
    && (d > 0 ==> cluster != END_OF_CHAIN)
    && fileLeft == n - (k * s + d)
    && (fileLeft > 0 ==> d % BUFFER_SIZE == 0)
    && (fileLeft <= 0 ==> k * s + d == FinalLength(n, s))
    && k * s + d <= ReadLength(fat, c0, n, s)
  }

  /** read_file's loop starts in its invariant. */
  lemma ReadingStart(fat: seq<U16>, c0: U16, n: int, s: nat)
    requires s > 0
    ensures Reading(fat, c0, n, s, 0, 0, c0, n)
  {
  }

  /** One pass of read_file's loop keeps its invariant: the chunk fits the
      buffer and the cluster and stays within ReadLength; a chunk that ends
      the cluster moves to fat[cluster] with nothing of it read yet. */
  lemma ReadingStep(fat: seq<U16>, c0: U16, n: int, s: nat, k: nat, d: nat, cluster: U16, fileLeft: int)
    requires Reading(fat, c0, n, s, k, d, cluster, fileLeft)
    requires fileLeft > 0 && cluster != END_OF_CHAIN
    ensures var b := ChunkSize(fileLeft, s - d);
      && 1 <= b <= BUFFER_SIZE && d + b <= s
      && k * s + d + b <= ReadLength(fat, c0, n, s)
      && (d + b < s ==> Reading(fat, c0, n, s, k, d + b, cluster, fileLeft - b))
      && (d + b == s ==> Reading(fat, c0, n, s, k + 1, 0, Link(fat, cluster), fileLeft - b))
  {
    var b := ChunkSize(fileLeft, s - d);
    var len := ReadLength(fat, c0, n, s);
    ChunkStep(n, s, k, d);
    StepWithinReadLength(fat, c0, n, s, k, d);
    if d + b == s {
      var next := Link(fat, cluster);
      assert (k + 1) * s + 0 == k * s + d + b;
      assert next == ChainAt(fat, c0, k + 1);
      assert forall j :: 0 <= j < k + 1 ==> ChainAt(fat, c0, j) != END_OF_CHAIN;
    }
  }

  /** When read_file's loop stops, the output is exactly ReadLength. */
  lemma ReadingEnd(fat: seq<U16>, c0: U16, n: int, s: nat, k: nat, d: nat, cluster: U16, fileLeft: int)
    requires Reading(fat, c0, n, s, k, d, cluster, fileLeft)
    requires !(fileLeft > 0 && cluster != END_OF_CHAIN)
    ensures k * s + d == ReadLength(fat, c0, n, s)
  {
    LoopExitLength(fat, c0, n, s, k, d);
  }

  /** When read_file's loop stops — the file finished, or the cluster is
      0xFFFF — the k whole clusters and d further bytes emitted are exactly
      ReadLength. */
  lemma LoopExitLength(fat: seq<U16>, c0: U16, n: int, s: nat, k: nat, d: nat)
    requires s > 0 && d < s
    requires forall j :: 0 <= j < k ==> ChainAt(fat, c0, j) != END_OF_CHAIN
    requires d > 0 ==> ChainAt(fat, c0, k) != END_OF_CHAIN
    requires n - (k * s + d) <= 0 ==> k * s + d == FinalLength(n, s)
    requires n - (k * s + d) <= 0 || ChainAt(fat, c0, k) == END_OF_CHAIN
    ensures ReadLength(fat, c0, n, s) == k * s + d
  {
    var need := NeededClusters(n, s);
    var e := FirstEnd(fat, c0, 0, need);
    assert (k + 1) * s == k * s + s;
    if n - (k * s + d) <= 0 {
      if e < need {
        assert ChainAt(fat, c0, e) == END_OF_CHAIN;
        assert e >= k;
        if e == k {
          assert d == 0;
          MulMonotone(k, need - 1, s);
          assert false;
        } else {
          MulMonotone(k + 1, need - 1, s);
          assert false;
        }
      }
    } else {
      if need <= k {
        MulMonotone(need, k, s);
      }
      assert e == k;
    }
  }

  /** k * s <= a bounds the quotient a / s from below. */
  lemma DivLowerBound(a: int, s: nat, k: int)
    requires s > 0 && k * s <= a
    ensures k <= a / s
  {
    if k > a / s {
      MulMonotone(a / s + 1, k, s);
    }
  }

  /** Euclidean division: a is its quotient times s plus its remainder. */
  lemma DivModDecompose(a: int, s: nat)
    requires s > 0
    ensures a == (a / s) * s + a % s
  {
  }

  /** At most m * s bytes make at most m whole blocks of s. */
  lemma DivUpperBound(a: int, s: nat, m: int)
    requires s > 0 && a <= m * s
    ensures a / s <= m
  {
    DivModDecompose(a, s);
    assert (m + 1) * s == m * s + s;
    if a / s > m {
      MulMonotone(m + 1, a / s, s);
    }
  }

  /** a = k * s + d with 0 <= d < s determines quotient and remainder. */
  lemma DivExact(a: int, s: nat, k: int, d: int)
    requires s > 0 && 0 <= d < s && a == k * s + d
    ensures a / s == k && a % s == d
  {
    DivLowerBound(a, s, k);
    if a / s > k {
      MulMonotone(k + 1, a / s, s);
    }
  }

  /** Only 0xFFFF ends a chain. With fat[2] == 0xFFF8, an end-of-chain value
      of the FAT format, a 1024-byte file at cluster 2 with 512-byte clusters
      reads a second cluster numbered 0xFFF8; with fat[2] == 0xFFFF it stops
      after 512 bytes. */
  lemma OnlyFfffEndsChain()
    ensures ChainAt([0, 0, 0xFFF8], 2, 1) == 0xFFF8
    ensures ReadLength([0, 0, 0xFFF8], 2, 1024, 512) == 1024
    ensures ReadLength([0, 0, 0xFFFF], 2, 1024, 512) == 512
  {
    assert NeededClusters(1024, 512) == 2;
    assert FirstEnd([0, 0, 0xFFF8], 2, 0, 2) == 2;
    assert FirstEnd([0, 0, 0xFFFF], 2, 0, 2) == 1;
  }

  /** The overshoot: with 2048-byte clusters the short last chunk covers
      bytes 2040..2047 of a cluster, so a 2045-byte file emits 2048 bytes,
      while 2040-byte and 300-byte files emit exactly their size. */
  lemma TailOvershootExample()
    ensures FinalLength(2045, 2048) == 2048
    ensures FinalLength(2040, 2048) == 2040
    ensures FinalLength(300, 2048) == 300
  {
    assert NeededClusters(2045, 2048) == 1;
    assert NeededClusters(2040, 2048) == 1;
    assert NeededClusters(300, 2048) == 1;
  }
}
