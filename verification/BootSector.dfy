/** The volume's geometry, from the fields of the boot sector (Init.c: FatOpenDevice). */
module BootSector {
  import opened FatTypes
  import opened FatEntry

  /** The boot sector fields that the geometry needs; `clusterShift` is log2 of the sectors in a cluster. */
  datatype Bpb = Bpb(sectorSize: nat, reservedSectors: nat, numFats: nat, sectorsPerFat: nat, rootEntries: nat,
                     sectors: nat, clusterShift: nat, fat32: bool)

  datatype Geometry = Geometry(fatType: FatType, volumeSize: nat, fatPos: nat, fatSize: nat, numFats: nat, rootPos: nat,
                               firstClusterPos: nat, maxCluster: nat, clusterSize: nat)

  datatype Opened = Opened(geometry: Geometry) | Refused

  const DIRECTORY_ENTRY_SIZE := 32
  const MAX_FAT12_CLUSTER := 0xFF5
  const MAX_FAT16_CLUSTER := 0xFFF5

  function Pow2(n: nat): (p: nat)
    ensures 0 < p
  {
    if n == 0 then 1 else 2 * Pow2(n - 1)
  }

  function Quotient(n: nat, d: nat): nat
    requires 0 < d
  {
    n / d
  }

  /** Fields that an earlier check has let through. */
  ghost predicate Checked(b: Bpb) {
    0 < b.sectorSize && 0 < b.reservedSectors && 0 < b.numFats && 0 < b.sectors && (b.fat32 ==> b.rootEntries == 0)
  }

  function FirstClusterLba(b: Bpb): nat
    requires 0 < b.sectorSize
  {
    b.numFats * b.sectorsPerFat + b.reservedSectors
    + (b.rootEntries * DIRECTORY_ENTRY_SIZE + (b.sectorSize - 1)) / b.sectorSize
  }

  /** MaxCluster; the subtraction is made in 64-bit unsigned arithmetic and may wrap around. */
  function MaxCluster(b: Bpb): nat
    requires 0 < b.sectorSize
  {
    Quotient(Wrap64(b.sectors - FirstClusterLba(b)), Pow2(b.clusterShift))
  }

  function Wrap64(d: int): (w: nat)
    ensures 0 <= d < 0x1_0000_0000_0000_0000 ==> w == d
  {
    d % 0x1_0000_0000_0000_0000
  }

  function OpenGeometry(b: Bpb): Opened
    requires 0 < b.sectorSize
  {
    var rootLba := b.numFats * b.sectorsPerFat + b.reservedSectors;
    var maxCluster := MaxCluster(b);
    if b.fat32 == (maxCluster < MAX_FAT16_CLUSTER) then Refused
    else Opened(Geometry(
      if b.fat32 then Fat32 else if maxCluster < MAX_FAT12_CLUSTER then Fat12 else Fat16,
      b.sectors * b.sectorSize,
      b.reservedSectors * b.sectorSize,
      b.sectorsPerFat * b.sectorSize,
      b.numFats,
      rootLba * b.sectorSize,
      FirstClusterLba(b) * b.sectorSize,
      maxCluster,
      b.sectorSize * Pow2(b.clusterShift)))
  }

  /** The copies of the FAT end where the root directory begins, and the root directory where the clusters begin. */
  lemma RegionsFollowEachOther(b: Bpb)
    requires Checked(b) && OpenGeometry(b).Opened?
    ensures var g := OpenGeometry(b).geometry;
      && g.rootPos == g.fatPos + g.numFats * g.fatSize
      && g.fatPos + g.fatSize <= g.rootPos
      && g.rootPos + b.rootEntries * DIRECTORY_ENTRY_SIZE <= g.firstClusterPos
      && 0 < g.clusterSize
  {
    var n, s := b.sectorSize, b.sectorsPerFat;
    var fats := b.numFats * s;
    MulAdd(fats, b.reservedSectors, n);
    MulAssoc(b.numFats, s, n);
    MulLe(1, b.numFats, s * n);
    var d := b.rootEntries * DIRECTORY_ENTRY_SIZE;
    var k := (d + (n - 1)) / n;
    PageSplit(d + (n - 1), n);
    MulAdd(fats + b.reservedSectors, k, n);
    MulLe(1, Pow2(b.clusterShift), n);
  }

  lemma MulAssoc(a: nat, b: nat, c: nat)
    ensures (a * b) * c == a * (b * c)
  {}

  /**
   * Every cluster lies inside the volume exactly when the reserved part does not exceed it; the code does not check
   * this.
   */
  lemma ClustersFitIff(b: Bpb)
    requires Checked(b) && OpenGeometry(b).Opened? && b.sectors < 0x1_0000_0000_0000_0000
    ensures var g := OpenGeometry(b).geometry;
      g.firstClusterPos + g.maxCluster * g.clusterSize <= g.volumeSize <==> FirstClusterLba(b) <= b.sectors
  {
    Fields(b);
    hide OpenGeometry, FirstClusterLba, MaxCluster, Pow2, Quotient, EndOfClusters;
    FitIff(FirstClusterLba(b), b.sectors, b.sectorSize, Pow2(b.clusterShift), OpenGeometry(b).geometry.maxCluster);
  }

  /** A boot sector that is accepted although its first cluster lies behind the volume's only sector. */
  lemma ClustersBehindTheVolume()
    ensures var b := Bpb(512, 1, 1, 1, 0, 1, 0, true);
      && Checked(b) && OpenGeometry(b).Opened? && FirstClusterLba(b) == 2 > b.sectors
      && OpenGeometry(b).geometry.firstClusterPos > OpenGeometry(b).geometry.volumeSize
  {
    var b := Bpb(512, 1, 1, 1, 0, 1, 0, true);
    assert FirstClusterLba(b) == 2;
    assert MaxCluster(b) == 0xFFFF_FFFF_FFFF_FFFF;
  }

  /** Where `max` clusters of `p` sectors of `n` bytes end that begin behind `first` sectors. */
  function EndOfClusters(first: nat, max: nat, n: nat, p: nat): nat {
    first * n + max * (n * p)
  }

  function Bytes(sectors: nat, n: nat): nat { sectors * n }

  lemma FitIff(first: nat, sectors: nat, n: nat, p: nat, max: nat)
    requires 0 < n && 0 < p && (first <= sectors ==> max == Quotient(sectors - first, p))
    ensures EndOfClusters(first, max, n, p) <= Bytes(sectors, n) <==> first <= sectors
  {
    if first <= sectors {
      ClustersFit(first, sectors, n, p);
    } else {
      MulLe(sectors + 1, first, n);
      MulAdd(sectors, 1, n);
      MulLe(0, max, n * p);
    }
  }

  /** The fields that say where the clusters lie. */
  lemma Fields(b: Bpb)
    requires Checked(b) && OpenGeometry(b).Opened? && b.sectors < 0x1_0000_0000_0000_0000
    ensures var g := OpenGeometry(b).geometry;
      && g.firstClusterPos + g.maxCluster * g.clusterSize ==
        EndOfClusters(FirstClusterLba(b), g.maxCluster, b.sectorSize, Pow2(b.clusterShift))
      && g.volumeSize == Bytes(b.sectors, b.sectorSize)
      && (FirstClusterLba(b) <= b.sectors ==>
          g.maxCluster == Quotient(b.sectors - FirstClusterLba(b), Pow2(b.clusterShift)))
  {
    hide FirstClusterLba, Pow2, Quotient;
  }

  lemma ClustersFit(first: nat, sectors: nat, n: nat, p: nat)
    requires first <= sectors && 0 < p
    ensures first * n + (sectors - first) / p * (n * p) <= sectors * n
  {
    var d := sectors - first;
    var q := d / p;
    PageSplit(d, p);
    MulLe(q * p, d, n);
    Rearrange(q, p, n);
    MulAdd(first, d, n);
  }

  lemma Rearrange(a: nat, b: nat, c: nat)
    ensures a * (c * b) == (a * b) * c
  {}

  /** On a FAT12 or FAT16 volume every cluster number is an ordinary entry value. */
  lemma ClusterNumbersOrdinary(b: Bpb)
    requires Checked(b) && OpenGeometry(b).Opened? && !b.fat32
    ensures var g := OpenGeometry(b).geometry; g.maxCluster + 1 < FirstSpecial(g.fatType)
  {}
}
