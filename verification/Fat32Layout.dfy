/** The layout arithmetic of FormatLargeFAT32 in src/format_fat32.c, with its 32- and 64-bit wrap-around. */
module Fat32Layout {
  import opened Common

  const U32 := 0x1_0000_0000
  const U64 := 0x1_0000_0000_0000_0000
  const MB := 0x10_0000
  const MIN_RESERVED := 32
  const NUM_FATS := 2
  const MIN_SECTORS := 65536
  const MAX_SECTORS := 0xFFFF_FFFF
  const MIN_CLUSTERS := 65536
  const MAX_CLUSTERS := 0x0FFF_FFFF

  datatype Refusal = TooSmall | TooBig | TooManyClusters | TooFewClusters | FatTooSmall
  datatype Plan = Refused(why: Refusal) | Planned(layout: Layout)

  /** A volume of `total` sectors of `bytes` bytes, `perCluster` of them to a cluster. */
  datatype Layout = Layout(total: nat, perCluster: nat, bytes: nat, reserved: nat, fatSize: nat, clusters: nat)

  /** GetFATSizeSectors. */
  function FatSizeSectors(disk: nat, reserved: nat, perCluster: nat, fats: nat, bytes: nat): nat
    requires (perCluster * bytes / 4 + fats) % U64 > 0
  {
    var numerator := ((disk - reserved) % U32 + 2 * perCluster) % U64;
    var denominator := (perCluster * bytes / 4 + fats) % U64;
    (numerator / denominator + 1) % U64 % U32
  }

  /** The size for two FATs, computed while wRsvdSecCnt is still 0. */
  function FatSizeFor(total: nat, perCluster: nat, bytes: nat): nat
    requires 1 <= perCluster <= 128 && 512 <= bytes <= MB
  {
    DenominatorPositive(perCluster, bytes);
    FatSizeSectors(total, 0, perCluster, NUM_FATS, bytes)
  }

  /** Two FATs behind at least 32 reserved sectors, rounded up so that the data area starts on a megabyte. */
  function ReservedSectors(fatSize: nat, bytes: nat): nat
    requires 0 < bytes <= MB
  {
    var align := MB / bytes;
    var area := (MIN_RESERVED + NUM_FATS * fatSize) % U32;
    var rounded := (area + align - 1) % U32 / align * align % U32;
    (rounded - NUM_FATS * fatSize) % U32
  }

  /** The checks and the layout, in the order of the source. */
  function MakePlan(total: nat, perCluster: nat, bytes: nat): Plan
    requires 1 <= perCluster <= 128 && 512 <= bytes <= MB
  {
    if total < MIN_SECTORS then Refused(TooSmall)
    else if total >= MAX_SECTORS then Refused(TooBig)
    else
      var fatSize := FatSizeFor(total, perCluster, bytes);
      var reserved := ReservedSectors(fatSize, bytes);
      var userArea := (total - reserved - NUM_FATS * fatSize) % U32;
      var clusters := userArea / perCluster;
      if clusters > MAX_CLUSTERS then Refused(TooManyClusters)
      else if clusters < MIN_CLUSTERS then Refused(TooFewClusters)
      else if (clusters * 4 + bytes - 1) / bytes > fatSize then Refused(FatTooSmall)
      else Planned(Layout(total, perCluster, bytes, reserved, fatSize, clusters))
  }

  lemma {:induction false} DenominatorPositive(perCluster: nat, bytes: nat)
    requires 1 <= perCluster <= 128 && 512 <= bytes <= MB
    ensures (perCluster * bytes / 4 + NUM_FATS) % U64 == perCluster * bytes / 4 + NUM_FATS > 0
  {
    ProductBound(perCluster, 128, bytes, MB);
    QuarterPositive(perCluster * bytes);
  }

  lemma {:induction false} ProductBound(a: nat, x: nat, b: nat, y: nat)
    requires a <= x && b <= y
    ensures 0 <= a * b <= x * y
  {
    assert a * b <= x * b <= x * y;
  }

  lemma {:induction false} QuarterPositive(p: nat)
    requires p <= 128 * MB
    ensures (p / 4 + NUM_FATS) % U64 == p / 4 + NUM_FATS > 0
  {
  }

  lemma {:induction false} Fits32(x: int)
    requires 0 <= x < U32
    ensures x % U32 == x
  {
  }

  /** The sector sizes of FAT volumes. */
  predicate SectorSize(bytes: nat) {
    bytes == 512 || bytes == 1024 || bytes == 2048 || bytes == 4096
  }

  /** FAT entries in a sector. */
  function Entries(bytes: nat): nat {
    bytes / 4
  }

  lemma {:induction false} QuarterProduct(perCluster: nat, bytes: nat)
    requires 1 <= perCluster <= 128 && SectorSize(bytes)
    ensures perCluster * bytes / 4 == perCluster * Entries(bytes)
    ensures 128 <= perCluster * Entries(bytes) <= 0x2_0000
  {
  }

  lemma {:induction false} NoWrap(q: nat)
    requires q < 0x400_0000
    ensures (q + 1) % U64 % U32 == q + 1
  {
  }

  lemma {:induction false} NumeratorFits(total: nat, perCluster: nat)
    requires total < MAX_SECTORS && 1 <= perCluster <= 128
    ensures ((total - 0) % U32 + 2 * perCluster) % U64 == total + 2 * perCluster
  {
  }

  /** Entries of one FAT sector, times a cluster's sectors, plus the two FATs. */
  function Denominator(perCluster: nat, bytes: nat): nat {
    perCluster * Entries(bytes) + NUM_FATS
  }

  /** Without wrap-around: the size is the quotient, plus one. */
  lemma {:induction false} FatSizeExact(total: nat, perCluster: nat, bytes: nat)
    requires MIN_SECTORS <= total < MAX_SECTORS && 1 <= perCluster <= 128 && SectorSize(bytes)
    ensures Denominator(perCluster, bytes) > 0
    ensures FatSizeFor(total, perCluster, bytes) ==
            (total + 2 * perCluster) / Denominator(perCluster, bytes) + 1
    ensures (total + 2 * perCluster) / Denominator(perCluster, bytes) < 0x400_0000
  {
    DenominatorPositive(perCluster, bytes);
    QuarterProduct(perCluster, bytes);
    NumeratorFits(total, perCluster);
    SizeFits(total + 2 * perCluster, Denominator(perCluster, bytes));
  }

  lemma {:induction false} SizeFits(n: nat, d: nat)
    requires n <= U32 + 256 && d >= 128
    ensures n / d < 0x400_0000 && (n / d + 1) % U64 % U32 == n / d + 1
  {
    QuotientBelow(n, d, 128);
    NoWrap(n / d);
  }

  lemma {:induction false} QuotientBelow(n: nat, d: nat, e: nat)
    requires 0 < e <= d
    ensures n / d <= n / e
  {
    assert n == n / d * d + n % d;
    ProductGrows(d, e, n / d);
    assert n >= n / d * e;
    if n / d > n / e {
      ProductGrows(n / d, n / e + 1, e);
    }
  }

  /** The size lies just above the exact quotient. */
  lemma {:induction false} FatSizeBounds(n: nat, d: nat, fatSize: nat)
    requires d > 0 && fatSize == n / d + 1
    ensures (fatSize - 1) * d <= n < fatSize * d
  {
    assert n == n / d * d + n % d;
    assert fatSize * d == n / d * d + d;
  }

  /** The entries of a FAT outnumber the clusters that fit beside two of them, and the two reserved entries. */
  lemma {:induction false} EntriesSuffice(total: nat, s: nat, e: nat, reserved: nat, fatSize: nat, clusters: nat)
    requires s > 0 && total + 2 * s < fatSize * (s * e + NUM_FATS)
    requires s * clusters + reserved + NUM_FATS * fatSize <= total
    ensures fatSize * e > clusters + 2
  {
    assert fatSize * (s * e + NUM_FATS) == s * (fatSize * e) + NUM_FATS * fatSize;
    assert s * (fatSize * e) > s * clusters + 2 * s;
    if fatSize * e <= clusters + 2 {
      ProductGrows(clusters + 2, fatSize * e, s);
    }
  }

  lemma {:induction false} Alignment(bytes: nat)
    requires SectorSize(bytes)
    ensures 0 < MB / bytes <= 2048 && MB / bytes * bytes == MB
  {
  }

  /** The reserved sectors: at least 32, less than one megabyte more, and they align the data area. */
  lemma {:induction false} ReservedExact(fatSize: nat, bytes: nat)
    requires SectorSize(bytes) && fatSize <= 0x400_0000
    ensures MIN_RESERVED <= ReservedSectors(fatSize, bytes) < MIN_RESERVED + MB / bytes <= MIN_RESERVED + 2048
    ensures (ReservedSectors(fatSize, bytes) + NUM_FATS * fatSize) * bytes % MB == 0
  {
    Alignment(bytes);
    var align, area := MB / bytes, MIN_RESERVED + NUM_FATS * fatSize;
    RoundedArea(area, align);
    var k := (area + align - 1) / align;
    Difference(k * align, fatSize, align);
    WholeMegabytes(k, align, bytes);
  }

  lemma {:induction false} Difference(rounded: nat, fatSize: nat, align: nat)
    requires fatSize <= 0x400_0000 && align <= 2048
    requires MIN_RESERVED + NUM_FATS * fatSize <= rounded < MIN_RESERVED + NUM_FATS * fatSize + align
    ensures (rounded - NUM_FATS * fatSize) % U32 == rounded - NUM_FATS * fatSize
  {
  }

  lemma {:induction false} WholeMegabytes(k: nat, align: nat, bytes: nat)
    requires align * bytes == MB
    ensures k * align * bytes % MB == 0
  {
    assert k * align * bytes == k * (align * bytes);
    DivUnique(k * MB, MB, k, 0);
  }

  lemma {:induction false} RoundedArea(area: nat, align: nat)
    requires area <= 0x1000_0000 && 0 < align <= 2048
    ensures var r := (area + align - 1) % U32 / align * align % U32;
            area % U32 == area && area <= r < area + align && r == (area + align - 1) / align * align
  {
    var n := area + align - 1;
    var q := n / align;
    assert n == q * align + n % align;
    Fits32(area);
    Fits32(n);
    Fits32(q * align);
  }

  /** Both FATs and the reserved sectors leave most of the volume. */
  lemma {:induction false} SystemAreaFits(total: nat, s: nat, d: nat, fatSize: nat)
    requires MIN_SECTORS <= total && 1 <= s <= 128 && d >= 130 && (fatSize - 1) * d <= total + 2 * s && 1 <= fatSize
    ensures NUM_FATS * fatSize + MIN_RESERVED + 2048 <= total
  {
    ProductGrows(d, 130, fatSize - 1);
    assert (fatSize - 1) * 130 <= total + 256;
  }

  lemma {:induction false} NeededFits(clusters: nat, bytes: nat, fatSize: nat)
    requires SectorSize(bytes) && clusters + 2 < fatSize * Entries(bytes)
    ensures (clusters * 4 + bytes - 1) / bytes <= fatSize
  {
    assert fatSize * bytes == 4 * (fatSize * Entries(bytes));
    var n := clusters * 4 + bytes - 1;
    assert n < (fatSize + 1) * bytes;
  }

  /** The layout for a FAT size and reserved count: nothing wraps, everything fits, and the data area is aligned. */
  ghost predicate Fits(total: int, perCluster: int, bytes: nat, reserved: int, fatSize: int, clusters: int)
    requires perCluster > 0 && bytes > 0
  {
    && MIN_RESERVED <= reserved < 0x1_0000
    && 1 <= fatSize <= 0x400_0000
    && reserved + NUM_FATS * fatSize <= total
    && clusters == (total - reserved - NUM_FATS * fatSize) / perCluster
    && (reserved + NUM_FATS * fatSize) * bytes % MB == 0
    && clusters + 2 < fatSize * Entries(bytes)
    && (clusters * 4 + bytes - 1) / bytes <= fatSize
  }

  /**
   For every sector count, sector size and cluster size: the reserved count fits its 16 bits, the
   user area does not underflow, the data area starts on a megabyte, and the FAT
   has room for every cluster, so that the last sanity check cannot fire.
   */
  lemma {:induction false} LayoutExact(total: nat, perCluster: nat, bytes: nat)
    requires MIN_SECTORS <= total < MAX_SECTORS && 1 <= perCluster <= 128 && SectorSize(bytes)
    ensures var fatSize := FatSizeFor(total, perCluster, bytes);
            var reserved := ReservedSectors(fatSize, bytes);
            var userArea := (total - reserved - NUM_FATS * fatSize) % U32;
            && userArea == total - reserved - NUM_FATS * fatSize
            && Fits(total, perCluster, bytes, reserved, fatSize, userArea / perCluster)
  {
    SizeSuffices(total, perCluster, bytes);
    var fatSize := FatSizeFor(total, perCluster, bytes);
    ReservedExact(fatSize, bytes);
    var area: nat := total - ReservedSectors(fatSize, bytes) - NUM_FATS * fatSize;
    AreaFits(total, perCluster, bytes, ReservedSectors(fatSize, bytes), fatSize, area);
  }

  /** The FAT size is large enough for the disk and small enough to fit on it twice. */
  lemma {:induction false} SizeSuffices(total: nat, perCluster: nat, bytes: nat)
    requires MIN_SECTORS <= total < MAX_SECTORS && 1 <= perCluster <= 128 && SectorSize(bytes)
    ensures var fatSize := FatSizeFor(total, perCluster, bytes);
            && 1 <= fatSize <= 0x400_0000 && NUM_FATS * fatSize + MIN_RESERVED + 2048 <= total
            && total + 2 * perCluster < fatSize * Denominator(perCluster, bytes)
  {
    FatSizeExact(total, perCluster, bytes);
    QuarterProduct(perCluster, bytes);
    SizeBetween(total, perCluster, Denominator(perCluster, bytes), FatSizeFor(total, perCluster, bytes));
  }

  lemma {:induction false} SizeBetween(total: nat, s: nat, d: nat, fatSize: nat)
    requires MIN_SECTORS <= total && 1 <= s <= 128 && d >= 130 && fatSize == (total + 2 * s) / d + 1
    ensures NUM_FATS * fatSize + MIN_RESERVED + 2048 <= total && total + 2 * s < fatSize * d
  {
    FatSizeBounds(total + 2 * s, d, fatSize);
    SystemAreaFits(total, s, d, fatSize);
  }

  lemma {:induction false} AreaFits(total: nat, perCluster: nat, bytes: nat, reserved: nat, fatSize: nat, area: nat)
    requires area == total - reserved - NUM_FATS * fatSize < U32
    requires perCluster > 0 && SectorSize(bytes) && total + 2 * perCluster < fatSize * Denominator(perCluster, bytes)
    ensures area % U32 == area
    ensures area / perCluster + 2 < fatSize * Entries(bytes) && (area / perCluster * 4 + bytes - 1) / bytes <= fatSize
  {
    Fits32(area);
    WholeClusters(area, perCluster);
    ClustersFit(total, perCluster, bytes, reserved, fatSize, area / perCluster);
  }

  lemma {:induction false} ClustersFit(total: nat, perCluster: nat, bytes: nat, reserved: nat, fatSize: nat,
                                       clusters: nat)
    requires perCluster > 0 && SectorSize(bytes) && total + 2 * perCluster < fatSize * Denominator(perCluster, bytes)
    requires perCluster * clusters + reserved + NUM_FATS * fatSize <= total
    ensures clusters + 2 < fatSize * Entries(bytes) && (clusters * 4 + bytes - 1) / bytes <= fatSize
  {
    EntriesSuffice(total, perCluster, Entries(bytes), reserved, fatSize, clusters);
    NeededFits(clusters, bytes, fatSize);
  }

  lemma {:induction false} WholeClusters(area: nat, perCluster: nat)
    requires perCluster > 0
    ensures perCluster * (area / perCluster) <= area
  {
    assert area == area / perCluster * perCluster + area % perCluster;
  }

  /** A plan that is made fits, and none is refused for too small a FAT. */
  lemma {:induction false} PlanSound(total: nat, perCluster: nat, bytes: nat)
    requires 1 <= perCluster <= 128 && SectorSize(bytes)
    ensures MakePlan(total, perCluster, bytes) != Refused(FatTooSmall)
    ensures MakePlan(total, perCluster, bytes).Planned? ==>
              var l := MakePlan(total, perCluster, bytes).layout;
              l.total == total && l.perCluster == perCluster && l.bytes == bytes && Sound(l)
  {
    if MIN_SECTORS <= total < MAX_SECTORS {
      LayoutExact(total, perCluster, bytes);
    }
  }

  ghost predicate Sound(l: Layout) {
    && l.perCluster > 0 && l.bytes > 0 && MIN_CLUSTERS <= l.clusters <= MAX_CLUSTERS
    && Fits(l.total, l.perCluster, l.bytes, l.reserved, l.fatSize, l.clusters)
  }
}
