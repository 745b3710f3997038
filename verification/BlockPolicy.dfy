/** Block sizes for block-incremental backup: the heuristic, its overrides, and the splitting of files. */
module BlockPolicy {
  import opened Base
  import Sorting

  const KIB: nat := 1024
  const MIB: nat := 1024 * KIB
  const DAY_SECS: nat := 24 * 60 * 60
  const WEEK_SECS: nat := 7 * DAY_SECS
  const AGE_NO_BLOCK_SECS: nat := 4 * WEEK_SECS
  const MIN_BLOCK_FILE_SIZE: nat := 128 * KIB
  const BASE_BLOCK_SIZE: nat := 8 * KIB
  const DEFAULT_CHECKSUM_SIZE: nat := 6
  const MAX_U64: nat := 0xFFFF_FFFF_FFFF_FFFF

  // ----- The heuristic

  function Pow2(k: nat): (p: nat)
    ensures p >= 1
  {
    if k == 0 then 1 else 2 * Pow2(k - 1)
  }

  /** The number of binary digits, which is the word width less the leading zeros. */
  function BitLength(n: nat): nat {
    if n == 0 then 0 else 1 + BitLength(n / 2)
  }

  function Min(a: nat, b: nat): nat {
    if a < b then a else b
  }

  function Max(a: int, b: int): int {
    if a < b then b else a
  }

  function SizeBuckets(fileSize: nat): nat {
    if fileSize < MIB then 0 else BitLength(fileSize / MIB)
  }

  function AgeBuckets(ageSecs: int): nat {
    Max(ageSecs, 0) / WEEK_SECS
  }

  /** How often the base block size is doubled. */
  function Shift(fileSize: nat, ageSecs: int): nat {
    Min(SizeBuckets(fileSize) + AgeBuckets(ageSecs), 7)
  }

  function HeuristicSize(fileSize: nat, ageSecs: int): Option<nat> {
    if fileSize < MIN_BLOCK_FILE_SIZE then None
    else if ageSecs >= AGE_NO_BLOCK_SECS then None
    else Some(BASE_BLOCK_SIZE * Pow2(Shift(fileSize, ageSecs)))
  }

  lemma {:induction false} Pow2Monotone(j: nat, k: nat)
    requires j <= k
    ensures Pow2(j) <= Pow2(k)
  {
    if j < k {
      Pow2Monotone(j, k - 1);
    }
  }

  /** The binary digits of a number say between which powers of two it lies. */
  lemma {:induction false} BitLengthBounds(n: nat)
    requires n > 0
    ensures Pow2(BitLength(n) - 1) <= n < Pow2(BitLength(n))
  {
    if n > 1 {
      BitLengthBounds(n / 2);
    }
  }

  lemma {:induction false} BitLengthMonotone(m: nat, n: nat)
    requires m <= n
    ensures BitLength(m) <= BitLength(n)
  {
    if m > 0 {
      BitLengthMonotone(m / 2, n / 2);
    }
  }

  lemma SevenDoublings()
    ensures Pow2(7) == 128
  {
    assert Pow2(3) == 8;
    assert Pow2(5) == 32;
  }

  /** A block size is 8 KiB doubled up to seven times, and there is one exactly for files large and young enough. */
  lemma BlockSizeRange(fileSize: nat, ageSecs: int)
    ensures HeuristicSize(fileSize, ageSecs).Some? <==> 128 * KIB <= fileSize && ageSecs < 28 * 86400
    ensures HeuristicSize(fileSize, ageSecs).Some? ==>
      exists k: nat :: k <= 7 && HeuristicSize(fileSize, ageSecs).value == 8 * KIB * Pow2(k)
    ensures HeuristicSize(fileSize, ageSecs).Some? ==> 8 * KIB <= HeuristicSize(fileSize, ageSecs).value <= MIB
  {
    if HeuristicSize(fileSize, ageSecs).Some? {
      var k := Shift(fileSize, ageSecs);
      Pow2Monotone(k, 7);
      SevenDoublings();
      assert k <= 7 && HeuristicSize(fileSize, ageSecs).value == 8 * KIB * Pow2(k);
    }
  }

  lemma SizeBucketsMonotone(f: nat, g: nat)
    requires f <= g
    ensures SizeBuckets(f) <= SizeBuckets(g)
  {
    if MIB <= f {
      BitLengthMonotone(f / MIB, g / MIB);
    }
  }

  /** Larger and older files get blocks at least as large. */
  lemma BlockSizeMonotone(f: nat, g: nat, a: int, b: int)
    requires f <= g && a <= b
    requires HeuristicSize(f, a).Some? && HeuristicSize(g, b).Some?
    ensures HeuristicSize(f, a).value <= HeuristicSize(g, b).value
  {
    SizeBucketsMonotone(f, g);
    AgeBucketsMonotone(a, b);
    LargerBlock(Shift(f, a), Shift(g, b));
  }

  lemma AgeBucketsMonotone(a: int, b: int)
    requires a <= b
    ensures AgeBuckets(a) <= AgeBuckets(b)
  {
  }

  lemma LargerBlock(j: nat, k: nat)
    requires j <= k
    ensures BASE_BLOCK_SIZE * Pow2(j) <= BASE_BLOCK_SIZE * Pow2(k)
  {
    Pow2Monotone(j, k);
  }

  lemma WholeMib(fileSize: nat, p: nat)
    ensures fileSize < p * MIB <==> fileSize / MIB < p
  {
  }

  /** Within the cap the doublings follow the size: twice the file, twice the block. */
  lemma SizeShift(fileSize: nat)
    requires MIB <= fileSize < 128 * MIB
    ensures 0 < SizeBuckets(fileSize) <= 7
    ensures Pow2(SizeBuckets(fileSize) - 1) * MIB <= fileSize < Pow2(SizeBuckets(fileSize)) * MIB
  {
    var k := SizeBuckets(fileSize);
    BitLengthBounds(fileSize / MIB);
    SevenDoublings();
    if k > 7 {
      Pow2Monotone(7, k - 1);
    }
    WholeMib(fileSize, Pow2(k));
    WholeMib(fileSize, Pow2(k - 1));
  }

  /**
   * The block size in plain numbers: 8 KiB, doubled once for 1 MiB and once more at
   * every doubling of the file from there on, once more for every whole week of age,
   * and never beyond 1 MiB.
   */
  lemma BlockSizeExactly(fileSize: nat, ageSecs: int, s: nat, weeks: nat)
    requires 131_072 <= fileSize && ageSecs < 2_419_200
    requires if fileSize < 1_048_576 then s == 0
      else s > 0 && Pow2(s - 1) * 1_048_576 <= fileSize < Pow2(s) * 1_048_576
    requires if ageSecs < 0 then weeks == 0 else 604_800 * weeks <= ageSecs < 604_800 * (weeks + 1)
    ensures HeuristicSize(fileSize, ageSecs) == Some(if s + weeks >= 7 then 1_048_576 else 8192 * Pow2(s + weeks))
  {
    hide Pow2, AgeBuckets, SizeBuckets;
    SevenDoublings();
    WeeksAre(ageSecs, weeks);
    if fileSize >= 1_048_576 {
      DoublingsAre(fileSize, s);
    } else {
      SmallFile(fileSize);
    }
  }

  lemma WeeksAre(ageSecs: int, weeks: nat)
    requires if ageSecs < 0 then weeks == 0 else 604_800 * weeks <= ageSecs < 604_800 * (weeks + 1)
    ensures AgeBuckets(ageSecs) == weeks
  {
  }

  lemma SmallFile(fileSize: nat)
    requires fileSize < 1_048_576
    ensures SizeBuckets(fileSize) == 0
  {
  }

  lemma DoublingsAre(fileSize: nat, s: nat)
    requires fileSize >= 1_048_576 && s > 0 && Pow2(s - 1) * 1_048_576 <= fileSize < Pow2(s) * 1_048_576
    ensures SizeBuckets(fileSize) == s
  {
    hide Pow2, BitLength;
    var k := SizeBuckets(fileSize);
    BitLengthBounds(fileSize / MIB);
    WholeMib(fileSize, Pow2(s));
    WholeMib(fileSize, Pow2(s - 1));
    if k < s { Pow2Monotone(k, s - 1); }
    if s < k { Pow2Monotone(s, k - 1); }
  }

  /** A fresh file below 128 MiB has fewer than 128 blocks, and at least 64 from 1 MiB on. */
  lemma BlockCount(fileSize: nat, ageSecs: int)
    requires HeuristicSize(fileSize, ageSecs).Some? && ageSecs < WEEK_SECS && fileSize < 128 * MIB
    ensures fileSize < 128 * HeuristicSize(fileSize, ageSecs).value
    ensures MIB <= fileSize ==> 64 * HeuristicSize(fileSize, ageSecs).value <= fileSize
  {
    assert AgeBuckets(ageSecs) == 0;
    if MIB <= fileSize {
      SizeShift(fileSize);
      var k := SizeBuckets(fileSize);
      assert Pow2(k) == 2 * Pow2(k - 1);
    }
  }

  // ----- Overrides

  datatype Bucket = Bucket(threshold: nat, value: nat)

  predicate Ascending(buckets: seq<Bucket>) {
    forall i, j :: 0 <= i < j < |buckets| ==> buckets[i].threshold <= buckets[j].threshold
  }

  /** No threshold is given twice. */
  predicate Distinct(buckets: seq<Bucket>) {
    forall i, j :: 0 <= i < j < |buckets| ==> buckets[i].threshold != buckets[j].threshold
  }

  function TakeWhile(buckets: seq<Bucket>, probe: nat): seq<Bucket> {
    if buckets != [] && buckets[0].threshold <= probe then [buckets[0]] + TakeWhile(buckets[1..], probe) else []
  }

  function Lookup(buckets: seq<Bucket>, probe: nat): Option<nat> {
    var reached := TakeWhile(buckets, probe);
    if reached == [] then None else Some(Last(reached).value)
  }

  /** The bucket with the largest threshold not above the probe. */
  predicate Best(buckets: seq<Bucket>, probe: nat, b: Bucket) {
    && b in buckets && b.threshold <= probe
    && forall c :: c in buckets && c.threshold <= probe ==> c.threshold <= b.threshold
  }

  lemma {:induction false} LookupFindsBest(buckets: seq<Bucket>, probe: nat)
    requires Ascending(buckets)
    ensures TakeWhile(buckets, probe) != [] ==> Best(buckets, probe, Last(TakeWhile(buckets, probe)))
    ensures TakeWhile(buckets, probe) == [] ==> forall c :: c in buckets ==> c.threshold > probe
  {
    if buckets != [] && buckets[0].threshold <= probe {
      LookupFindsBest(buckets[1..], probe);
      assert forall c :: c in buckets <==> c == buckets[0] || c in buckets[1..];
    }
  }

  lemma BestIsUnique(buckets: seq<Bucket>, probe: nat, b: Bucket, c: Bucket)
    requires Distinct(buckets) && Best(buckets, probe, b) && Best(buckets, probe, c)
    ensures b == c
  {
  }

  /**
   * Whatever the order in which buckets with distinct thresholds were given, a
   * lookup answers with the largest threshold not above the probe.
   */
  lemma LookupIgnoresOrder(given: seq<Bucket>, sorted: seq<Bucket>, probe: nat)
    requires Distinct(given) && Ascending(sorted) && multiset(sorted) == multiset(given)
    ensures forall b :: Best(given, probe, b) ==> Lookup(sorted, probe) == Some(b.value)
    ensures Lookup(sorted, probe) == None <==> forall c :: c in given ==> c.threshold > probe
    ensures Lookup(sorted, probe).Some? ==> exists b :: Best(given, probe, b) && b.value == Lookup(sorted, probe).value
  {
    assert forall c :: c in sorted <==> c in multiset(sorted);
    assert forall c :: c in given <==> c in multiset(given);
    LookupFindsBest(sorted, probe);
    var reached := TakeWhile(sorted, probe);
    if reached != [] {
      assert Best(given, probe, Last(reached));
      forall b | Best(given, probe, b) ensures b == Last(reached) {
        BestIsUnique(given, probe, b, Last(reached));
      }
    }
  }

  datatype BlockOverrides = BlockOverrides(sizeMap: seq<Bucket>, ageMap: seq<Bucket>, checksumSizeMap: seq<Bucket>) {
    function BlockSize(fileSize: nat, ageSecs: int): Option<nat> {
      if HeuristicSize(fileSize, ageSecs).None? then None else
        var ageMultiplier := Lookup(ageMap, Max(ageSecs, 0) / DAY_SECS);
        var heuristic := HeuristicSize(fileSize, if ageMultiplier.Some? then 0 else ageSecs);
        if heuristic.None? then None else
          var size := Lookup(sizeMap, fileSize);
          var chosen := if size.Some? then size.value else heuristic.value;
          Some(if ageMultiplier.Some? then SaturatingMul(chosen, ageMultiplier.value) else chosen)
    }

    function ChecksumSize(blockSize: nat): nat {
      var size := Lookup(checksumSizeMap, blockSize);
      if size.Some? then size.value else DEFAULT_CHECKSUM_SIZE
    }
  }

  /** A number, or the largest of 64 bits. */
  function InWord(n: nat): nat {
    if n < 18_446_744_073_709_551_616 then n else 18_446_744_073_709_551_615
  }

  function SaturatingMul(a: nat, b: nat): nat {
    if a * b > MAX_U64 then MAX_U64 else a * b
  }

  /** Sorts buckets in place by threshold. */
  method Sort(a: array<Bucket>)
    modifies a
    ensures Ascending(a[..]) && multiset(a[..]) == multiset(old(a[..]))
  {
    Sorting.Sort(a, (b: Bucket, c: Bucket) => b.threshold <= c.threshold);
  }

  method NewOverrides(sizeMap: array<Bucket>, ageMap: array<Bucket>, checksumSizeMap: array<Bucket>)
    returns (o: BlockOverrides)
    requires sizeMap != ageMap && sizeMap != checksumSizeMap && ageMap != checksumSizeMap
    modifies sizeMap, ageMap, checksumSizeMap
    ensures Ascending(o.sizeMap) && multiset(o.sizeMap) == multiset(old(sizeMap[..]))
    ensures Ascending(o.ageMap) && multiset(o.ageMap) == multiset(old(ageMap[..]))
    ensures Ascending(o.checksumSizeMap) && multiset(o.checksumSizeMap) == multiset(old(checksumSizeMap[..]))
  {
    Sort(sizeMap);
    Sort(ageMap);
    Sort(checksumSizeMap);
    o := BlockOverrides(sizeMap[..], ageMap[..], checksumSizeMap[..]);
  }

  /** Overrides never give a block size to a file the heuristic leaves without one, nor take it away. */
  lemma OverridesKeepEligibility(o: BlockOverrides, fileSize: nat, ageSecs: int)
    ensures o.BlockSize(fileSize, ageSecs).Some? <==> HeuristicSize(fileSize, ageSecs).Some?
    ensures o.sizeMap == [] && o.ageMap == [] ==> o.BlockSize(fileSize, ageSecs) == HeuristicSize(fileSize, ageSecs)
  {
  }

  lemma ProductInWord(a: nat, b: nat)
    ensures SaturatingMul(a, b) == InWord(a * b)
  {
  }

  /** Age makes no file eligible that is not when it is fresh. */
  lemma FreshIsEligible(fileSize: nat, ageSecs: int)
    requires HeuristicSize(fileSize, ageSecs).Some?
    ensures HeuristicSize(fileSize, 0).Some?
  {
  }

  /** What the two lookups come to. */
  lemma LayersOf(o: BlockOverrides, fileSize: nat, ageSecs: int, days: nat)
    requires HeuristicSize(fileSize, ageSecs).Some? && days == if ageSecs < 0 then 0 else ageSecs / 86_400
    ensures HeuristicSize(fileSize, 0).Some?
    ensures var size, age := Lookup(o.sizeMap, fileSize), Lookup(o.ageMap, days);
      o.BlockSize(fileSize, ageSecs) == Some(
        if age.Some? then InWord((if size.Some? then size.value else HeuristicSize(fileSize, 0).value) * age.value)
        else if size.Some? then size.value else HeuristicSize(fileSize, ageSecs).value)
  {
    hide InWord, SaturatingMul, HeuristicSize, Lookup;
    FreshIsEligible(fileSize, ageSecs);
    var size, age := Lookup(o.sizeMap, fileSize), Lookup(o.ageMap, days);
    if age.Some? {
      ProductInWord(if size.Some? then size.value else HeuristicSize(fileSize, 0).value, age.value);
    }
  }

  /**
   * What an eligible file gets, read off the maps as they were given: the size
   * bucket's block size or the heuristic's, times the age bucket's multiplier;
   * with an age bucket the heuristic does not count the age a second time.
   */
  lemma OverrideLayers(o: BlockOverrides, sizes: seq<Bucket>, ages: seq<Bucket>, fileSize: nat, ageSecs: int)
    requires Distinct(sizes) && Ascending(o.sizeMap) && multiset(o.sizeMap) == multiset(sizes)
    requires Distinct(ages) && Ascending(o.ageMap) && multiset(o.ageMap) == multiset(ages)
    requires HeuristicSize(fileSize, ageSecs).Some?
    ensures var days, chosen := (if ageSecs < 0 then 0 else ageSecs / 86_400), o.BlockSize(fileSize, ageSecs);
      && (forall s, a :: Best(sizes, fileSize, s) && Best(ages, days, a) ==>
            chosen == Some(InWord(s.value * a.value)))
      && (forall s :: Best(sizes, fileSize, s) && (forall c :: c in ages ==> c.threshold > days) ==>
            chosen == Some(s.value))
      && (forall a :: (forall c :: c in sizes ==> c.threshold > fileSize) && Best(ages, days, a) ==>
            chosen == Some(InWord(HeuristicSize(fileSize, 0).value * a.value)))
      && ((forall c :: c in sizes ==> c.threshold > fileSize) && (forall c :: c in ages ==> c.threshold > days) ==>
            chosen == HeuristicSize(fileSize, ageSecs))
  {
    hide InWord, HeuristicSize, Lookup, Best, Ascending, Distinct, BlockOverrides.BlockSize;
    var days := if ageSecs < 0 then 0 else ageSecs / 86_400;
    LayersOf(o, fileSize, ageSecs, days);
    LookupIgnoresOrder(sizes, o.sizeMap, fileSize);
    LookupIgnoresOrder(ages, o.ageMap, days);
  }

  /** The checksum size of a block is that of the largest bucket not above the block, or the default. */
  lemma ChecksumLayers(o: BlockOverrides, given: seq<Bucket>, blockSize: nat)
    requires Distinct(given) && Ascending(o.checksumSizeMap) && multiset(o.checksumSizeMap) == multiset(given)
    ensures forall b :: Best(given, blockSize, b) ==> o.ChecksumSize(blockSize) == b.value
    ensures (forall c :: c in given ==> c.threshold > blockSize) ==> o.ChecksumSize(blockSize) == 6
  {
    LookupIgnoresOrder(given, o.checksumSizeMap, blockSize);
  }

  // ----- Splitting and putting together

  type Bytes = seq<bv8>

  function Chunks(bytes: Bytes, chunk: nat): (blocks: seq<Bytes>)
    requires chunk > 0
  {
    if |bytes| == 0 then [] else
    if |bytes| <= chunk then [bytes] else [bytes[..chunk]] + Chunks(bytes[chunk..], chunk)
  }

  function SplitBlocks(bytes: Bytes, blockSize: nat): seq<Bytes> {
    if bytes == [] then [] else Chunks(bytes, if blockSize == 0 then |bytes| else blockSize)
  }

  function Flatten(blocks: seq<Bytes>): Bytes {
    if blocks == [] then [] else blocks[0] + Flatten(blocks[1..])
  }

  lemma {:induction false} FlattenAppend(blocks: seq<Bytes>, block: Bytes)
    ensures Flatten(blocks + [block]) == Flatten(blocks) + block
  {
    if blocks == [] {
      assert blocks + [block] == [block];
    } else {
      assert (blocks + [block])[1..] == blocks[1..] + [block];
      FlattenAppend(blocks[1..], block);
    }
  }

  method Reassemble(blocks: seq<Bytes>) returns (out: Bytes)
    ensures out == Flatten(blocks)
  {
    out := [];
    for i := 0 to |blocks|
      invariant out == Flatten(blocks[..i])
    {
      FlattenAppend(blocks[..i], blocks[i]);
      assert blocks[..i + 1] == blocks[..i] + [blocks[i]];
      out := out + blocks[i];
    }
    assert blocks[..|blocks|] == blocks;
  }

  /** Every block but the last is full, and the last is not empty. */
  predicate WellSplit(blocks: seq<Bytes>, chunk: nat) {
    forall i :: 0 <= i < |blocks| ==>
      && 0 < |blocks[i]| <= chunk
      && (i < |blocks| - 1 ==> |blocks[i]| == chunk)
  }

  lemma {:induction false} ChunksOf(bytes: Bytes, chunk: nat)
    requires chunk > 0
    ensures Flatten(Chunks(bytes, chunk)) == bytes && WellSplit(Chunks(bytes, chunk), chunk)
  {
    if |bytes| > chunk {
      ChunksOf(bytes[chunk..], chunk);
    }
  }

  /** For every block size, zero included, putting the blocks of a file together gives the file. */
  lemma SplitThenReassemble(bytes: Bytes, blockSize: nat)
    ensures Flatten(SplitBlocks(bytes, blockSize)) == bytes
    ensures blockSize > 0 ==> WellSplit(SplitBlocks(bytes, blockSize), blockSize)
    ensures blockSize == 0 ==> |SplitBlocks(bytes, blockSize)| <= 1
  {
    if bytes != [] {
      ChunksOf(bytes, if blockSize == 0 then |bytes| else blockSize);
    }
  }

  /** Blocks that are split as they should be are found again: the splitting is the only one. */
  lemma {:induction false} ReassembleThenSplit(blocks: seq<Bytes>, chunk: nat)
    requires chunk > 0 && WellSplit(blocks, chunk)
    ensures SplitBlocks(Flatten(blocks), chunk) == blocks
  {
    if |blocks| == 1 {
      assert Flatten(blocks) == blocks[0] by {
        assert Flatten(blocks[1..]) == [];
      }
      assert blocks == [blocks[0]];
    } else if |blocks| > 1 {
      var rest := Flatten(blocks[1..]);
      ReassembleThenSplit(blocks[1..], chunk);
      assert rest != [] by {
        assert rest == blocks[1] + Flatten(blocks[1..][1..]);
      }
      assert (blocks[0] + rest)[chunk..] == rest && (blocks[0] + rest)[..chunk] == blocks[0];
      assert blocks == [blocks[0]] + blocks[1..];
    }
  }
}
