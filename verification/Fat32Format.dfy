/** What FormatLargeFAT32 in src/format_fat32.c writes to a volume once the layout is settled. */
module Fat32Format {
  import opened Common
  import opened Fat32Layout

  const BURST := 128
  const BACKUP_BOOT := 6

  /**
   The contents of a sector, as far as they matter: 32-bit words, a boot record, an FSInfo record, or anything
   else.
   */
  datatype Sector = Words(words: seq<nat>) | Boot(layout: Layout) | Info(free: nat, next: nat) | Other(id: nat)

  function Zeros(n: nat): seq<nat> {
    seq(n, _ => 0)
  }

  function ZeroSector(bytes: nat): Sector {
    Words(Zeros(Entries(bytes)))
  }

  function FirstFatSector(bytes: nat): Sector
    requires bytes >= 12
  {
    Words([0x0FFF_FFF8, 0x0FFF_FFFF, 0x0FFF_FFFF] + Zeros(Entries(bytes) - 3))
  }

  /** A volume that may fail any write part of the way: how many of n sectors from a start it stores. */
  class Volume {
    const sectors: array<Sector>
    const stores: (nat, nat, nat) -> nat
    var clock: nat
    ghost var short: bool        // some write did not complete

    constructor (sectors: array<Sector>, stores: (nat, nat, nat) -> nat)
      ensures this.sectors == sectors && this.stores == stores && !short
    {
      this.sectors, this.stores, clock, short := sectors, stores, 0, false;
    }

    /** write_sectors, with n copies of the same sector. */
    method Write(start: nat, n: nat, content: Sector) returns (ok: bool)
      modifies this, sectors
      ensures short == (old(short) || !ok)
      ensures ok ==> start + n <= sectors.Length
      ensures start + n <= sectors.Length ==> (ok <==> stores(old(clock), start, n) >= n)
      ensures forall i :: 0 <= i < sectors.Length && !(start <= i < start + n) ==> sectors[i] == old(sectors[i])
      ensures ok ==> forall i :: start <= i < start + n ==> sectors[i] == content
      ensures !ok && n == 1 ==> forall i :: 0 <= i < sectors.Length ==> sectors[i] == old(sectors[i])
    {
      var k := Min(stores(clock, start, n), n);
      clock := clock + 1;
      if start + k > sectors.Length {
        k := 0;
      }
      for j := 0 to k
        modifies sectors
        invariant forall i :: start <= i < start + j ==> sectors[i] == content
        invariant forall i :: 0 <= i < sectors.Length && !(start <= i < start + j) ==> sectors[i] == old(sectors[i])
      {
        sectors[start + j] := content;
      }
      ok := k == n && start + n <= sectors.Length;
      short := short || !ok;
    }
  }

  /** Takes every burst that lies inside it. */
  ghost predicate TakesBursts(vol: Volume) {
    forall t: nat, start: nat :: vol.stores(t, start, BURST) >= BURST
  }

  /** Takes every write that lies inside it. */
  ghost predicate Healthy(vol: Volume) {
    forall t: nat, start: nat, n: nat :: vol.stores(t, start, n) >= n
  }

  /** Reserved sectors, both FATs and the root directory's cluster. */
  function SystemArea(l: Layout): nat {
    l.reserved + NUM_FATS * l.fatSize + l.perCluster
  }

  /** The last burst of the zeroing loop ends inside the volume. */
  lemma {:induction false} BurstsInside(l: Layout)
    requires Sound(l)
    ensures SystemArea(l) + 2 * BURST <= l.total
  {
    var area := l.total - l.reserved - NUM_FATS * l.fatSize;
    WholeClusters(area, l.perCluster);
    ProductGrows(l.clusters, MIN_CLUSTERS, l.perCluster);
    assert l.perCluster * l.clusters == l.clusters * l.perCluster;
  }

  /** Zero the system area in bursts. */
  method ZeroSystemArea(vol: Volume, l: Layout, cancelled: nat -> bool) returns (ok: bool)
    requires Sound(l) && vol.sectors.Length == l.total
    modifies vol, vol.sectors
    ensures ok ==> vol.short == old(vol.short)
    ensures TakesBursts(vol) && (forall t :: !cancelled(t)) ==> ok
    ensures ok ==> Zeroed(vol.sectors[..], l)
    ensures forall i :: SystemArea(l) + 2 * BURST <= i < vol.sectors.Length ==> vol.sectors[i] == old(vol.sectors[i])
  {
    BurstsInside(l);
    var i := 0;
    while i < SystemArea(l) + BURST - 1
      invariant i < SystemArea(l) + 2 * BURST && vol.short == old(vol.short)
      invariant forall j :: 0 <= j < i && j < vol.sectors.Length ==> vol.sectors[j] == ZeroSector(l.bytes)
      invariant forall j :: SystemArea(l) + 2 * BURST <= j < vol.sectors.Length ==>
                              vol.sectors[j] == old(vol.sectors[j])
    {
      if cancelled(vol.clock) {
        return false;
      }
      ok := vol.Write(i, BURST, ZeroSector(l.bytes));
      if !ok {
        return;
      }
      i := i + BURST;
    }
    return true;
  }

  /** The FSInfo sector of a fresh volume. */
  function FreshInfo(l: Layout): Sector
    requires l.clusters >= 1
  {
    Info(l.clusters - 1, 3)
  }

  /** What the format means to put into a boot or FSInfo sector, or their backups. */
  function BootContent(l: Layout, i: nat): Sector
    requires l.clusters >= 1
  {
    if i == 0 || i == BACKUP_BOOT then Boot(l) else FreshInfo(l)
  }

  /** What the format leaves in a reserved sector. */
  function ReservedContent(l: Layout, i: nat): Sector
    requires l.clusters >= 1
  {
    if IsBootSector(i) then BootContent(l, i) else ZeroSector(l.bytes)
  }

  predicate IsBootSector(i: nat) {
    i == 0 || i == 1 || i == BACKUP_BOOT || i == BACKUP_BOOT + 1
  }

  /** Boot sector and FSInfo, then their backups; nobody looks at the results. */
  method WriteBootSectors(vol: Volume, l: Layout)
    requires BACKUP_BOOT + 1 < vol.sectors.Length && l.clusters >= 1 && !vol.short
    modifies vol, vol.sectors
    ensures BootStep(old(vol.sectors[..]), vol.sectors[..], l, vol.short)
    ensures Healthy(vol) ==> !vol.short
    ensures vol.stores(old(vol.clock), 0, 1) == 0 ==> vol.short
  {
    ghost var was := vol.sectors[..];
    var i := 0;
    ghost var lost: nat := 0;
    while i < 2
      invariant 0 <= i <= 2 && (Healthy(vol) ==> !vol.short)
      invariant i == 0 ==> vol.clock == old(vol.clock)
      invariant i >= 1 && vol.stores(old(vol.clock), 0, 1) == 0 ==> vol.short
      invariant i >= 1 && !vol.short ==> vol.sectors[0] == Boot(l) && vol.sectors[1] == FreshInfo(l)
      invariant i == 2 && !vol.short ==>
                  vol.sectors[BACKUP_BOOT] == Boot(l) && vol.sectors[BACKUP_BOOT + 1] == FreshInfo(l)
      invariant forall j :: 0 <= j < vol.sectors.Length && vol.sectors[j] != was[j] ==> IsBootSector(j) && i >= Round(j)
      invariant vol.short ==> IsBootSector(lost) && i >= Round(lost) && vol.sectors[lost] == was[lost]
    {
      var start := if i == 0 then 0 else BACKUP_BOOT;
      ghost var before := vol.short;
      var a := vol.Write(start, 1, Boot(l));
      var b := vol.Write(start + 1, 1, FreshInfo(l));
      if !before {
        lost := if !a then start else start + 1;
      }
      i := i + 1;
    }
    assert vol.short ==> vol.sectors[..][lost] == was[lost];
  }

  /** The turn of the loop after which a boot sector is written. */
  ghost function Round(i: nat): nat {
    if i < 2 then 1 else 2
  }

  ghost predicate BootWritten(s: seq<Sector>, l: Layout)
    requires l.clusters >= 1
  {
    BACKUP_BOOT + 1 < |s| && s[0] == s[BACKUP_BOOT] == Boot(l) && InfoWritten(s, l)
  }

  /** Both FSInfo sectors are fresh. */
  ghost predicate InfoWritten(s: seq<Sector>, l: Layout)
    requires l.clusters >= 1
  {
    BACKUP_BOOT + 1 < |s| && s[1] == s[BACKUP_BOOT + 1] == FreshInfo(l)
  }

  /** Where a FAT starts. */
  function FatStart(l: Layout, k: nat): nat {
    l.reserved + k * l.fatSize
  }

  /** The first sector of each FAT. */
  method WriteFats(vol: Volume, l: Layout)
    requires l.bytes >= 12 && l.fatSize >= 1 && FatStart(l, 2) <= vol.sectors.Length
    modifies vol, vol.sectors
    ensures old(vol.short) ==> vol.short
    ensures FatFrame(old(vol.sectors[..]), vol.sectors[..], l)
    ensures !old(vol.short) ==> FatStep(old(vol.sectors[..]), vol.sectors[..], l, vol.short)
    ensures Healthy(vol) ==> vol.short == old(vol.short)
  {
    ghost var was, before, a, b := vol.sectors[..], vol.short, FatStart(l, 0), FatStart(l, 1);
    var i := 0;
    while i < NUM_FATS
      invariant 0 <= i <= 2 && (before ==> vol.short) && (Healthy(vol) ==> vol.short == before)
      invariant forall k :: 0 <= k < i && !vol.short ==> vol.sectors[FatStart(l, k)] == FirstFatSector(l.bytes)
      invariant forall j :: 0 <= j < vol.sectors.Length && (i == 0 || j != a) && (i <= 1 || j != b) ==>
                              vol.sectors[j] == was[j]
      invariant vol.short && !before ==> i >= 1 && (vol.sectors[a] == was[a] || (i == 2 && vol.sectors[b] == was[b]))
    {
      var _ := vol.Write(FatStart(l, i), 1, FirstFatSector(l.bytes));
      i := i + 1;
    }
  }

  /** The boot record patching that follows: any change, but to reserved sectors only. */
  method PatchReserved(vol: Volume, l: Layout, patch: nat -> Option<Sector>)
    requires l.reserved <= vol.sectors.Length
    modifies vol.sectors
    ensures forall i :: 0 <= i < vol.sectors.Length ==>
                          vol.sectors[i] ==
                          if i < l.reserved && patch(i).Some? then patch(i).value else old(vol.sectors[i])
  {
    forall i | 0 <= i < l.reserved && patch(i).Some? {
      vol.sectors[i] := patch(i).value;
    }
  }

  /** What the format leaves in a sector of the FATs or the root directory. */
  function FatContent(l: Layout, i: nat): Sector
    requires l.bytes >= 12
  {
    if i == FatStart(l, 0) || i == FatStart(l, 1) then FirstFatSector(l.bytes) else ZeroSector(l.bytes)
  }

  /** Each FAT is its first sector and zeros, and the root directory is empty. */
  ghost predicate FatsWritten(s: seq<Sector>, l: Layout)
    requires l.bytes >= 12
  {
    && SystemArea(l) <= |s|
    && (forall i :: l.reserved <= i < SystemArea(l) ==>
                      s[i] == FatContent(l, i))
  }

  /** The patching leaves a sector alone, or puts there what it should hold anyway. */
  predicate Keeps(patch: nat -> Option<Sector>, i: nat, content: Sector) {
    patch(i) == None || patch(i) == Some(content)
  }

  /** The patching keeps the boot and FSInfo sectors and their backups as they are. */
  predicate KeepsBoot(patch: nat -> Option<Sector>) {
    patch(0) == None && patch(1) == None && patch(BACKUP_BOOT) == None && patch(BACKUP_BOOT + 1) == None
  }

  lemma {:induction false} FatSectorsDiffer(bytes: nat)
    requires SectorSize(bytes)
    ensures FirstFatSector(bytes) != ZeroSector(bytes)
  {
    SectorWords(bytes, 0);
  }

  /** A sector that was zeroed and not written since is neither a boot sector nor the start of a FAT. */
  lemma {:induction false} Unwritten(s: seq<Sector>, l: Layout, i: nat)
    requires Sound(l) && SectorSize(l.bytes) && i < |s| && s[i] == ZeroSector(l.bytes) && SystemArea(l) <= |s|
    ensures IsBootSector(i) ==> !BootWritten(s, l)
    ensures i == FatStart(l, 0) || i == FatStart(l, 1) ==> !FatsWritten(s, l)
  {
    FatSectorsDiffer(l.bytes);
  }

  /** What the four boot sector writes do, and what is lost if one is short. */
  ghost predicate BootStep(was: seq<Sector>, now: seq<Sector>, l: Layout, short: bool)
    requires l.clusters >= 1
  {
    && |was| == |now| && BACKUP_BOOT + 1 < |now|
    && (forall i :: 0 <= i < |now| && !IsBootSector(i) ==> now[i] == was[i])
    && (if short then exists i :: 0 <= i < BACKUP_BOOT + 2 && IsBootSector(i) && now[i] == was[i]
        else BootWritten(now, l))
  }

  /** Only the first sectors of the FATs change. */
  ghost predicate FatFrame(was: seq<Sector>, now: seq<Sector>, l: Layout) {
    var a, b := FatStart(l, 0), FatStart(l, 1);
    |was| == |now| && a < |now| && b < |now| && forall i :: 0 <= i < |now| && i != a && i != b ==> now[i] == was[i]
  }

  /** The same for the two FAT sector writes. */
  ghost predicate FatStep(was: seq<Sector>, now: seq<Sector>, l: Layout, short: bool)
    requires l.bytes >= 12
  {
    var a, b := FatStart(l, 0), FatStart(l, 1);
    && FatFrame(was, now, l)
    && (if short then now[a] == was[a] || now[b] == was[b] else now[a] == now[b] == FirstFatSector(l.bytes))
  }

  ghost predicate Zeroed(s: seq<Sector>, l: Layout) {
    SystemArea(l) <= |s| && forall i :: 0 <= i < SystemArea(l) ==> s[i] == ZeroSector(l.bytes)
  }

  lemma {:induction false} AllWritten(zero: seq<Sector>, boot: seq<Sector>, fats: seq<Sector>, l: Layout)
    requires Sound(l) && SectorSize(l.bytes) && Zeroed(zero, l)
    requires BootStep(zero, boot, l, false) && FatStep(boot, fats, l, false)
    ensures FatsWritten(fats, l) && BootWritten(fats, l)
  {
  }

  lemma {:induction false} BootLost(zero: seq<Sector>, boot: seq<Sector>, fats: seq<Sector>, l: Layout)
    requires Sound(l) && SectorSize(l.bytes) && Zeroed(zero, l)
    requires BootStep(zero, boot, l, true) && FatFrame(boot, fats, l)
    ensures !BootWritten(fats, l)
  {
    var i :| 0 <= i < BACKUP_BOOT + 2 && IsBootSector(i) && boot[i] == zero[i];
    Unwritten(fats, l, i);
  }

  lemma {:induction false} FatLost(zero: seq<Sector>, boot: seq<Sector>, fats: seq<Sector>, l: Layout)
    requires Sound(l) && SectorSize(l.bytes) && Zeroed(zero, l)
    requires BootStep(zero, boot, l, false) && FatStep(boot, fats, l, true)
    ensures !FatsWritten(fats, l)
  {
    var a, b := FatStart(l, 0), FatStart(l, 1);
    Unwritten(fats, l, if fats[a] == boot[a] then a else b);
  }

  /** The writes that nobody checks: they are all on the volume if and only if none was short. */
  method WriteUnchecked(vol: Volume, l: Layout)
    requires Sound(l) && SectorSize(l.bytes) && vol.sectors.Length == l.total && !vol.short
    requires Zeroed(vol.sectors[..], l)
    modifies vol, vol.sectors
    ensures !vol.short <==> FatsWritten(vol.sectors[..], l) && BootWritten(vol.sectors[..], l)
    ensures forall i :: && 0 <= i < vol.sectors.Length && !IsBootSector(i)
                        && i != FatStart(l, 0) && i != FatStart(l, 1) ==>
                          vol.sectors[i] == old(vol.sectors[i])
    ensures Healthy(vol) ==> !vol.short
    ensures vol.stores(old(vol.clock), 0, 1) == 0 ==> vol.short
  {
    ghost var zero := vol.sectors[..];
    WriteBootSectors(vol, l);
    ghost var boot, bootShort := vol.sectors[..], vol.short;
    WriteFats(vol, l);
    if bootShort {
      BootLost(zero, boot, vol.sectors[..], l);
    } else if vol.short {
      FatLost(zero, boot, vol.sectors[..], l);
    } else {
      AllWritten(zero, boot, vol.sectors[..], l);
    }
  }

  /**
   The whole format. A completed format whose boot sectors are not patched has written its boot and FSInfo sectors and
   its FATs if and only if no write was short; a patched one has, in each reserved sector, what
   the patch says or else what the format put there. Whatever happens, nothing
   changes two bursts or more beyond the system area.
   */
  method Format(vol: Volume, l: Layout, cancelled: nat -> bool, patch: nat -> Option<Sector>) returns (ok: bool)
    requires Sound(l) && SectorSize(l.bytes) && vol.sectors.Length == l.total && !vol.short
    modifies vol, vol.sectors
    ensures ok && !vol.short ==> FatsWritten(vol.sectors[..], l)
    ensures ok && !vol.short ==>
              forall i :: 0 <= i < l.reserved ==>
                            vol.sectors[i] == if patch(i).Some? then patch(i).value else ReservedContent(l, i)
    ensures ok && !vol.short && Keeps(patch, 1, FreshInfo(l)) && Keeps(patch, BACKUP_BOOT + 1, FreshInfo(l)) ==>
              InfoWritten(vol.sectors[..], l)
    ensures ok && KeepsBoot(patch) ==>
              (!vol.short <==> FatsWritten(vol.sectors[..], l) && BootWritten(vol.sectors[..], l))
    ensures forall i :: SystemArea(l) + 2 * BURST <= i < vol.sectors.Length ==> vol.sectors[i] == old(vol.sectors[i])
    ensures TakesBursts(vol) && (forall t :: !cancelled(t)) ==> ok
    ensures Healthy(vol) && (forall t :: !cancelled(t)) ==> ok && !vol.short
    ensures ok && (forall t: nat, start: nat :: vol.stores(t, start, 1) == 0) ==> vol.short
  {
    BurstsInside(l);
    ok := ZeroSystemArea(vol, l, cancelled);
    if ok {
      WriteUnchecked(vol, l);
      PatchReserved(vol, l, patch);
    }
  }

  /** A volume that takes bursts and loses single sectors: the format completes, and there is no file system. */
  method UncheckedWrites(l: Layout) returns (vol: Volume, ok: bool)
    requires Sound(l) && SectorSize(l.bytes)
    ensures ok && vol.sectors.Length == l.total && !(FatsWritten(vol.sectors[..], l) && BootWritten(vol.sectors[..], l))
  {
    var sectors := new Sector[l.total](_ => Other(0));
    vol := new Volume(sectors, (t, start, n) => if n == BURST then BURST else 0);
    ok := Format(vol, l, _ => false, _ => None);
  }

  // ---------------------------------------------------------------- reading the volume back

  /** The i-th word of a sector of words. */
  function WordOf(s: Sector, i: nat): Option<nat> {
    if s.Words? && i < |s.words| then Some(s.words[i]) else None
  }

  /** Entry c of FAT k, where a file system driver looks for it. */
  function FatEntry(s: seq<Sector>, l: Layout, k: nat, c: nat): Option<nat>
    requires Entries(l.bytes) > 0
  {
    var at := FatStart(l, k) + c / Entries(l.bytes);
    if at < |s| then WordOf(s[at], c % Entries(l.bytes)) else None
  }

  /** What a fresh FAT holds: the media byte, an end mark, the root directory's end mark, and free clusters. */
  function FreshEntry(c: nat): nat {
    if c == 0 then 0x0FFF_FFF8 else if c <= 2 then 0x0FFF_FFFF else 0
  }

  lemma {:induction false} EntryPlace(c: nat, e: nat, fatSize: nat)
    requires 0 < e && c < fatSize * e
    ensures c / e < fatSize && c % e < e && (c / e == 0 ==> c % e == c) && (c / e > 0 ==> c >= e)
  {
    assert c == c / e * e + c % e;
    if c / e >= fatSize {
      ProductGrows(c / e, fatSize, e);
    }
    if c / e > 0 {
      ProductGrows(c / e, 1, e);
    }
  }

  /** Both FATs hold the fresh entries, so they are identical and only entries 0, 1 and 2 are in use. */
  lemma {:induction false} FreshFats(s: seq<Sector>, l: Layout, k: nat, c: nat)
    requires SectorSize(l.bytes) && FatsWritten(s, l) && k < NUM_FATS && c < l.fatSize * Entries(l.bytes)
    ensures FatEntry(s, l, k, c) == Some(FreshEntry(c))
  {
    EntryPlace(c, Entries(l.bytes), l.fatSize);
    SectorOfFat(s, l, k, c / Entries(l.bytes));
    WordOfEntry(c, l.bytes, c / Entries(l.bytes), c % Entries(l.bytes));
  }

  /** The word at place r of the q-th sector of a fresh FAT. */
  lemma {:induction false} WordOfEntry(c: nat, bytes: nat, q: nat, r: nat)
    requires SectorSize(bytes) && r < Entries(bytes) && (q == 0 ==> r == c) && (q > 0 ==> c >= Entries(bytes))
    ensures WordOf(if q == 0 then FirstFatSector(bytes) else ZeroSector(bytes), r) == Some(FreshEntry(c))
  {
    SectorWords(bytes, r);
  }

  lemma {:induction false} SectorWords(bytes: nat, i: nat)
    requires SectorSize(bytes) && i < Entries(bytes)
    ensures WordOf(FirstFatSector(bytes), i) == Some(FreshEntry(i)) && WordOf(ZeroSector(bytes), i) == Some(0)
  {
  }

  lemma {:induction false} SectorOfFat(s: seq<Sector>, l: Layout, k: nat, j: nat)
    requires l.bytes >= 12 && FatsWritten(s, l) && k < NUM_FATS && j < l.fatSize
    ensures FatStart(l, k) + j < |s|
    ensures s[FatStart(l, k) + j] == if j == 0 then FirstFatSector(l.bytes) else ZeroSector(l.bytes)
  {
    assert k == 0 || k == 1;
  }

  /** The free clusters among the first n, as the FAT has them. */
  function FreeClusters(s: seq<Sector>, l: Layout, k: nat, n: nat): nat
    requires Entries(l.bytes) > 0
  {
    if n == 0 then 0
    else FreeClusters(s, l, k, n - 1) + if FatEntry(s, l, k, n + 1) == Some(0) then 1 else 0
  }

  lemma {:induction false} FreeClustersFresh(s: seq<Sector>, l: Layout, k: nat, n: nat)
    requires SectorSize(l.bytes) && FatsWritten(s, l) && k < NUM_FATS && n + 1 < l.fatSize * Entries(l.bytes)
    ensures FreeClusters(s, l, k, n) == if n == 0 then 0 else n - 1
  {
    if n > 0 {
      FreeClustersFresh(s, l, k, n - 1);
      FreshFats(s, l, k, n + 1);
    }
  }

  /** The free count in both FSInfo sectors is the number of free clusters in either FAT. */
  lemma {:induction false} FreeCountRight(s: seq<Sector>, l: Layout, k: nat)
    requires Sound(l) && SectorSize(l.bytes) && FatsWritten(s, l) && InfoWritten(s, l) && k < NUM_FATS
    ensures s[1].Info? && s[1].free == FreeClusters(s, l, k, l.clusters)
    ensures s[BACKUP_BOOT + 1] == s[1]
    ensures FatEntry(s, l, k, s[1].next) == Some(0)
  {
    FreeClustersFresh(s, l, k, l.clusters);
    FreshFats(s, l, k, 3);
  }

  /** The boot sectors and their backups, the two FATs and the data area do not overlap. */
  lemma {:induction false} AreasDisjoint(l: Layout, i: nat, j: nat)
    requires Sound(l) && i < l.fatSize && j < l.fatSize
    ensures BACKUP_BOOT + 1 < FatStart(l, 0) + i < FatStart(l, 1) + j < SystemArea(l) - l.perCluster
    ensures SystemArea(l) <= l.total
  {
    BurstsInside(l);
  }
}
