/** Packing small files into bundle objects: the allocator and what its slots promise. */
module BundlePacker {
  import opened Base

  const MAX_U64: nat := 0xFFFF_FFFF_FFFF_FFFF

  type Bytes = seq<bv8>

  function SaturatingAdd(a: nat, b: nat): nat {
    if a + b > MAX_U64 then MAX_U64 else a + b
  }

  datatype BundleSlot = BundleSlot(bundleId: nat, offset: nat)

  // ----- Which slots a packer hands out

  /** The slot after a file of size `size` at `slot`, for a file of size `next`. */
  function NextSlot(cap: nat, slot: BundleSlot, size: nat, next: nat): BundleSlot {
    var end := SaturatingAdd(slot.offset, size);
    if SaturatingAdd(end, next) > cap then BundleSlot(slot.bundleId + 1, 0) else BundleSlot(slot.bundleId, end)
  }

  /** Slots handed out for files of the given sizes, in order. */
  ghost predicate Packed(cap: nat, sizes: seq<nat>, slots: seq<BundleSlot>) {
    && |sizes| == |slots|
    && (slots != [] ==> slots[0] == BundleSlot(1, 0))
    && (forall i :: 0 <= i < |sizes| - 1 ==> slots[i + 1] == NextSlot(cap, slots[i], sizes[i], sizes[i + 1]))
  }

  class Packer {
    const bundleSize: nat
    var currentId: nat
    var currentOffset: nat
    var hasFile: bool
    ghost var sizes: seq<nat>
    ghost var slots: seq<BundleSlot>

    ghost predicate Valid()
      reads this
    {
      && Packed(bundleSize, sizes, slots)
      && 0 < bundleSize
      && hasFile == (slots != [])
      && currentId == (if slots == [] then 1 else Last(slots).bundleId)
      && currentOffset == (if slots == [] then 0 else SaturatingAdd(Last(slots).offset, Last(sizes)))
    }

    constructor (bundleSize: nat)
      ensures Valid() && sizes == [] && slots == []
      ensures this.bundleSize == if bundleSize == 0 then 1 else bundleSize
    {
      this.bundleSize := if bundleSize == 0 then 1 else bundleSize;
      currentId, currentOffset, hasFile := 1, 0, false;
      sizes, slots := [], [];
    }

    method Place(repoBytes: nat) returns (slot: BundleSlot)
      requires Valid()
      modifies this
      ensures Valid()
      ensures sizes == old(sizes) + [repoBytes] && slots == old(slots) + [slot]
    {
      if hasFile && SaturatingAdd(currentOffset, repoBytes) > bundleSize {
        currentId := currentId + 1;
        currentOffset := 0;
        hasFile := false;
      }
      slot := BundleSlot(currentId, currentOffset);
      currentOffset := SaturatingAdd(currentOffset, repoBytes);
      hasFile := true;
      sizes, slots := sizes + [repoBytes], slots + [slot];
    }
  }

  // ----- What the bundles hold

  function Sizes(files: seq<Bytes>): (sizes: seq<nat>)
    ensures |sizes| == |files| && forall i :: 0 <= i < |files| ==> sizes[i] == |files[i]|
  {
    seq(|files|, i requires 0 <= i < |files| => |files[i]|)
  }

  /** A bundle after the first `n` files, each appended to the bundle of its slot. */
  function Contents(files: seq<Bytes>, slots: seq<BundleSlot>, id: nat, n: nat): Bytes
    requires n <= |files| == |slots|
  {
    if n == 0 then [] else
      Contents(files, slots, id, n - 1) + if slots[n - 1].bundleId == id then files[n - 1] else []
  }

  function Total(sizes: seq<nat>): nat {
    if sizes == [] then 0 else Total(sizes[..|sizes| - 1]) + Last(sizes)
  }

  /** Every file starts where its bundle ends when it is placed: no gap and no overlap. */
  ghost predicate Tiled(files: seq<Bytes>, slots: seq<BundleSlot>)
    requires |files| == |slots|
  {
    forall i :: 0 <= i < |slots| ==> slots[i].offset == |Contents(files, slots, slots[i].bundleId, i)|
  }

  lemma {:induction false} IdsRise(cap: nat, sizes: seq<nat>, slots: seq<BundleSlot>, i: nat, j: nat)
    requires Packed(cap, sizes, slots) && i <= j < |slots|
    ensures 1 <= slots[i].bundleId <= slots[j].bundleId
    decreases j
  {
    if j == 0 {
    } else if i < j {
      IdsRise(cap, sizes, slots, i, j - 1);
    } else {
      IdsRise(cap, sizes, slots, i - 1, j - 1);
    }
  }

  lemma {:induction false} NothingYet(files: seq<Bytes>, slots: seq<BundleSlot>, id: nat, n: nat)
    requires n <= |files| == |slots| && forall i :: 0 <= i < n ==> slots[i].bundleId != id
    ensures Contents(files, slots, id, n) == []
  {
    if n > 0 {
      NothingYet(files, slots, id, n - 1);
    }
  }

  /** Offsets never saturate. */
  ghost predicate Fits(cap: nat, sizes: seq<nat>) {
    || cap < 18_446_744_073_709_551_615
    || sizes == [] || Total(sizes[..|sizes| - 1]) <= 18_446_744_073_709_551_615
  }

  lemma {:induction false} PrefixTotal(sizes: seq<nat>, i: nat)
    requires i <= |sizes|
    ensures Total(sizes[..i]) <= Total(sizes)
    decreases |sizes|
  {
    if i < |sizes| {
      PrefixTotal(sizes[..|sizes| - 1], i);
      assert sizes[..|sizes| - 1][..i] == sizes[..i];
    } else {
      assert sizes[..i] == sizes;
    }
  }

  lemma TotalNext(sizes: seq<nat>, i: nat)
    requires i < |sizes|
    ensures Total(sizes[..i + 1]) == Total(sizes[..i]) + sizes[i]
  {
    assert sizes[..i + 1][..i] == sizes[..i];
  }

  /** A file that its bundle does not start with. */
  ghost predicate Joins(slots: seq<BundleSlot>, i: nat)
    requires i < |slots|
  {
    0 < i && slots[i].bundleId == slots[i - 1].bundleId
  }

  /** A file that joins a bundle ends within the cap; a bundle holds no more than was placed. */
  lemma {:induction false} OffsetBounds(cap: nat, sizes: seq<nat>, slots: seq<BundleSlot>, i: nat)
    requires Packed(cap, sizes, slots) && i < |slots|
    ensures Joins(slots, i) ==> SaturatingAdd(slots[i].offset, sizes[i]) <= cap
    ensures !Joins(slots, i) ==> slots[i].offset == 0
    ensures slots[i].offset <= Total(sizes[..i])
  {
    if i > 0 {
      OffsetBounds(cap, sizes, slots, i - 1);
      TotalNext(sizes, i - 1);
    }
  }

  /** Where offsets fit, the place after a file that is not the last is exact. */
  lemma EndIsExact(cap: nat, sizes: seq<nat>, slots: seq<BundleSlot>, i: nat)
    requires Packed(cap, sizes, slots) && i + 1 < |slots| && Fits(cap, sizes)
    requires sizes[i] <= MAX_U64
    ensures SaturatingAdd(slots[i].offset, sizes[i]) == slots[i].offset + sizes[i]
  {
    OffsetBounds(cap, sizes, slots, i);
    TotalNext(sizes, i);
    PrefixTotal(sizes[..|sizes| - 1], i + 1);
    assert sizes[..|sizes| - 1][..i + 1] == sizes[..i + 1];
  }

  lemma {:induction false} FileStartsAtEnd(cap: nat, files: seq<Bytes>, slots: seq<BundleSlot>, i: nat)
    requires Packed(cap, Sizes(files), slots) && i < |slots| && Fits(cap, Sizes(files))
    requires forall k :: 0 <= k < |files| ==> |files[k]| <= MAX_U64
    ensures slots[i].offset == |Contents(files, slots, slots[i].bundleId, i)|
  {
    if i > 0 {
      var sizes, last := Sizes(files), slots[i - 1];
      FileStartsAtEnd(cap, files, slots, i - 1);
      EndIsExact(cap, sizes, slots, i - 1);
      if slots[i].bundleId != last.bundleId {
        NewBundleIsEmpty(cap, files, slots, i);
      }
    }
  }

  lemma NewBundleIsEmpty(cap: nat, files: seq<Bytes>, slots: seq<BundleSlot>, i: nat)
    requires Packed(cap, Sizes(files), slots) && 0 < i < |slots| && slots[i].bundleId != slots[i - 1].bundleId
    ensures Contents(files, slots, slots[i].bundleId, i) == []
    ensures slots[i].offset == 0
  {
    forall k | 0 <= k < i ensures slots[k].bundleId != slots[i].bundleId {
      IdsRise(cap, Sizes(files), slots, k, i - 1);
    }
    NothingYet(files, slots, slots[i].bundleId, i);
  }

  lemma {:induction false} OneBundle(sizes: seq<nat>, slots: seq<BundleSlot>, i: nat)
    requires Packed(MAX_U64, sizes, slots) && i < |slots|
    ensures slots[i].bundleId == 1 && slots[i].offset <= MAX_U64
  {
    if i > 0 {
      OneBundle(sizes, slots, i - 1);
    }
  }

  lemma {:induction false} AllInOne(files: seq<Bytes>, slots: seq<BundleSlot>, n: nat)
    requires n <= |files| == |slots| && forall i :: 0 <= i < n ==> slots[i].bundleId == 1
    ensures |Contents(files, slots, 1, n)| == Total(Sizes(files)[..n])
  {
    if n > 0 {
      AllInOne(files, slots, n - 1);
      TotalNext(Sizes(files), n - 1);
    }
  }

  /**
   * The slots tile the bundles exactly when offsets do not saturate: below the
   * largest cap always, at it when all files but the last fit 64 bits.
   */
  lemma TiledExactlyWhenFits(cap: nat, files: seq<Bytes>, slots: seq<BundleSlot>)
    requires cap <= MAX_U64 && Packed(cap, Sizes(files), slots)
    requires forall k :: 0 <= k < |files| ==> |files[k]| <= MAX_U64
    ensures Tiled(files, slots) <==> Fits(cap, Sizes(files))
  {
    var sizes := Sizes(files);
    if Fits(cap, sizes) {
      forall i | 0 <= i < |slots| ensures slots[i].offset == |Contents(files, slots, slots[i].bundleId, i)| {
        FileStartsAtEnd(cap, files, slots, i);
      }
    } else {
      var n := |slots| - 1;
      forall i | 0 <= i < |slots| ensures slots[i].bundleId == 1 {
        OneBundle(sizes, slots, i);
      }
      OneBundle(sizes, slots, n);
      AllInOne(files, slots, n);
      assert slots[n].offset != |Contents(files, slots, slots[n].bundleId, n)|;
    }
  }

  /** A bundle only grows. */
  lemma {:induction false} ContentsGrow(files: seq<Bytes>, slots: seq<BundleSlot>, id: nat, i: nat, n: nat)
    requires i <= n <= |files| == |slots|
    ensures Contents(files, slots, id, i) <= Contents(files, slots, id, n)
    decreases n
  {
    if i < n {
      ContentsGrow(files, slots, id, i, n - 1);
    }
  }

  /** Slicing a finished bundle at a file's slot returns the file. */
  lemma SliceReturnsFile(files: seq<Bytes>, slots: seq<BundleSlot>, i: nat)
    requires |files| == |slots| && i < |slots| && Tiled(files, slots)
    ensures var bundle, offset := Contents(files, slots, slots[i].bundleId, |slots|), slots[i].offset;
      offset + |files[i]| <= |bundle| && bundle[offset..offset + |files[i]|] == files[i]
  {
    var id := slots[i].bundleId;
    ContentsGrow(files, slots, id, i + 1, |slots|);
    var after := Contents(files, slots, id, i + 1);
    assert after == Contents(files, slots, id, i) + files[i];
    assert Contents(files, slots, id, |slots|)[..|after|] == after;
  }

  /** The files of a bundle. */
  function FilesOf(slots: seq<BundleSlot>, id: nat, n: nat): seq<nat>
    requires n <= |slots|
  {
    if n == 0 then [] else FilesOf(slots, id, n - 1) + if slots[n - 1].bundleId == id then [n - 1] else []
  }

  lemma {:induction false} NoFilesYet(slots: seq<BundleSlot>, id: nat, n: nat)
    requires n <= |slots| && forall i :: 0 <= i < n ==> slots[i].bundleId != id
    ensures FilesOf(slots, id, n) == []
  {
    if n > 0 {
      NoFilesYet(slots, id, n - 1);
    }
  }

  /** Only a bundle of one file can exceed the cap. */
  lemma {:induction false} OnlyLoneFileExceeds(cap: nat, files: seq<Bytes>, slots: seq<BundleSlot>, id: nat, n: nat)
    requires n <= |files| && Packed(cap, Sizes(files), slots)
    requires forall k :: 0 <= k < |files| ==> |files[k]| <= MAX_U64
    requires cap < MAX_U64 || Total(Sizes(files)) <= MAX_U64
    ensures |Contents(files, slots, id, n)| <= cap || |FilesOf(slots, id, n)| == 1
  {
    if n > 0 {
      var sizes, i := Sizes(files), n - 1;
      OnlyLoneFileExceeds(cap, files, slots, id, i);
      if slots[i].bundleId == id {
        PrefixTotal(sizes, |sizes| - 1);
        FileStartsAtEnd(cap, files, slots, i);
        OffsetBounds(cap, sizes, slots, i);
        TotalNext(sizes, i);
        PrefixTotal(sizes, n);
        if !Joins(slots, i) {
          OpensBundle(cap, sizes, slots, i);
        }
      }
    }
  }

  /** A file that does not join the one before it is the first of its bundle. */
  lemma OpensBundle(cap: nat, sizes: seq<nat>, slots: seq<BundleSlot>, i: nat)
    requires Packed(cap, sizes, slots) && i < |slots| && !Joins(slots, i)
    ensures FilesOf(slots, slots[i].bundleId, i) == []
  {
    hide Packed;
    if i > 0 {
      IdSteps(cap, sizes, slots, i);
    }
    forall k | 0 <= k < i ensures slots[k].bundleId != slots[i].bundleId {
      IdsRise(cap, sizes, slots, k, i - 1);
    }
    NoFilesYet(slots, slots[i].bundleId, i);
  }

  lemma IdSteps(cap: nat, sizes: seq<nat>, slots: seq<BundleSlot>, i: nat)
    requires Packed(cap, sizes, slots) && 0 < i < |slots|
    ensures Joins(slots, i) || slots[i].bundleId == slots[i - 1].bundleId + 1
  {
    assert slots[i] == slots[i - 1 + 1] == NextSlot(cap, slots[i - 1], sizes[i - 1], sizes[i - 1 + 1]);
  }

  // ----- Few bundles

  function Flatten(split: seq<seq<nat>>): seq<nat> {
    if split == [] then [] else Flatten(split[..|split| - 1]) + Last(split)
  }

  /** A part of a split that one bundle may hold: within the cap, or a single file. */
  predicate Allowed(cap: nat, part: seq<nat>) {
    |part| <= 1 || Total(part) <= cap
  }

  /** Within a part that follows `k` bundles' worth of files the packer opens no more than one bundle. */
  lemma {:induction false} OnePartOneBundle(cap: nat, sizes: seq<nat>, slots: seq<BundleSlot>, p: nat, part: seq<nat>,
      k: nat, j: nat)
    requires Packed(cap, sizes, slots) && p <= j < p + |part| <= |sizes| && sizes[p..p + |part|] == part
    requires Allowed(cap, part) && (p > 0 ==> slots[p - 1].bundleId <= k)
    ensures slots[j].bundleId <= k + 1
    ensures slots[j].bundleId == k + 1 ==> slots[j].offset <= Total(part[..j - p])
    decreases j
  {
    if j > p {
      OnePartOneBundle(cap, sizes, slots, p, part, k, j - 1);
      assert sizes[j - 1] == part[j - 1 - p] && sizes[j] == part[j - p];
      TotalNext(part, j - 1 - p);
      TotalNext(part, j - p);
      PrefixTotal(part, j - p + 1);
    }
  }

  lemma {:induction false} OptimalSoFar(cap: nat, sizes: seq<nat>, slots: seq<BundleSlot>, split: seq<seq<nat>>, k: nat)
    requires Packed(cap, sizes, slots) && k <= |split| && Flatten(split[..k]) <= sizes
    requires forall part :: part in split ==> Allowed(cap, part)
    ensures forall i :: 0 <= i < |Flatten(split[..k])| ==> slots[i].bundleId <= k
  {
    if k > 0 {
      var part, before := split[k - 1], Flatten(split[..k - 1]);
      assert split[..k][..k - 1] == split[..k - 1];
      assert Flatten(split[..k]) == before + part;
      OptimalSoFar(cap, sizes, slots, split, k - 1);
      assert part in split;
      assert sizes[|before|..|before| + |part|] == part;
      forall i | 0 <= i < |before + part| ensures slots[i].bundleId <= k {
        if i >= |before| {
          OnePartOneBundle(cap, sizes, slots, |before|, part, k - 1, i);
        }
      }
    }
  }

  /** No split of the files, in their order, into allowed parts has fewer parts than the packer opens bundles. */
  lemma PackingIsOptimal(cap: nat, sizes: seq<nat>, slots: seq<BundleSlot>, split: seq<seq<nat>>)
    requires Packed(cap, sizes, slots) && slots != []
    requires Flatten(split) == sizes && forall part :: part in split ==> Allowed(cap, part)
    ensures Last(slots).bundleId <= |split|
  {
    assert split[..|split|] == split;
    OptimalSoFar(cap, sizes, slots, split, |split|);
  }

  lemma OneMore(b: nat, cap: nat)
    ensures b * (cap + 1) + (cap + 1) == (b + 1) * (cap + 1)
  {
  }

  /** Two bundles in a row hold more than the cap between them. */
  lemma {:induction false} BundlesAreHalfFull(cap: nat, sizes: seq<nat>, slots: seq<BundleSlot>, n: nat)
    requires Packed(cap, sizes, slots) && 0 < n <= |slots|
    ensures slots[n - 1].bundleId >= 1
    ensures 2 * Total(sizes[..n]) >= (slots[n - 1].bundleId - 1) * (cap + 1) + slots[n - 1].offset + sizes[n - 1]
  {
    TotalNext(sizes, n - 1);
    if n > 1 {
      BundlesAreHalfFull(cap, sizes, slots, n - 1);
      OneMore(slots[n - 2].bundleId - 1, cap);
    }
  }

  // ----- One file per bundle

  /** No two files share a bundle. */
  ghost predicate OnePerBundle(slots: seq<BundleSlot>) {
    forall i, j :: 0 <= i < j < |slots| ==> slots[i].bundleId != slots[j].bundleId
  }

  /** No file fits behind the one before it. */
  ghost predicate NoNeighboursFit(cap: nat, sizes: seq<nat>) {
    forall i :: 0 <= i < |sizes| - 1 ==> sizes[i] + sizes[i + 1] > cap
  }

  lemma {:induction false} ApartSoFar(cap: nat, sizes: seq<nat>, slots: seq<BundleSlot>, i: nat)
    requires Packed(cap, sizes, slots) && cap < MAX_U64 && NoNeighboursFit(cap, sizes) && i < |slots|
    ensures slots[i] == BundleSlot(i + 1, 0)
  {
    if i > 0 {
      ApartSoFar(cap, sizes, slots, i - 1);
      assert sizes[i - 1] + sizes[i - 1 + 1] > cap;
    }
  }

  /** Every file has a bundle of its own exactly when no two neighbours fit one together. */
  lemma OnePerBundleExactlyWhen(cap: nat, sizes: seq<nat>, slots: seq<BundleSlot>)
    requires Packed(cap, sizes, slots) && cap < MAX_U64
    ensures OnePerBundle(slots) <==> NoNeighboursFit(cap, sizes)
  {
    if NoNeighboursFit(cap, sizes) {
      forall i, j | 0 <= i < j < |slots| ensures slots[i].bundleId != slots[j].bundleId {
        ApartSoFar(cap, sizes, slots, i);
        ApartSoFar(cap, sizes, slots, j);
      }
    }
    if OnePerBundle(slots) {
      forall i | 0 <= i < |sizes| - 1 ensures sizes[i] + sizes[i + 1] > cap {
        OwnBundleStartsAtZero(cap, sizes, slots, i);
        assert slots[i].bundleId != slots[i + 1].bundleId;
      }
    }
  }

  lemma OwnBundleStartsAtZero(cap: nat, sizes: seq<nat>, slots: seq<BundleSlot>, i: nat)
    requires Packed(cap, sizes, slots) && OnePerBundle(slots) && i < |slots|
    ensures slots[i].offset == 0
  {
    if i > 0 {
      assert slots[i] == NextSlot(cap, slots[i - 1], sizes[i - 1], sizes[i - 1 + 1]);
    }
  }

  /** So a cap of zero, which becomes one byte, does not: an empty file shares with an empty or a one-byte one. */
  lemma EmptyFilesShare(sizes: seq<nat>, slots: seq<BundleSlot>)
    requires Packed(1, sizes, slots) && (sizes == [0, 0] || sizes == [0, 1] || sizes == [1, 0])
    ensures slots[0].bundleId == slots[1].bundleId && !OnePerBundle(slots)
  {
    assert slots[0 + 1] == NextSlot(1, slots[0], sizes[0], sizes[0 + 1]);
  }
}
