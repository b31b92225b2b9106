/** The record types the device inventory produces (src/disk/mod.rs). */
module Disk {

  /** 2^64, one past the largest `u64`. */
  const U64Bound: int := 0x1_0000_0000_0000_0000

  /** Rust's `u64`: the width of every space field of a `Disk`. */
  newtype u64 = x: int | 0 <= x < U64Bound

  /** A `PathBuf` given by the normal components of an absolute path:
      `/dev/sdb` is `["dev", "sdb"]` and `/` is `[]`. */
  type Path = seq<string>

  /** The closed set of device kinds the application supports. */
  datatype DiskType = HDD | SSD | Partition | Removable | RAID | Unknown

  /** A mounted filesystem belonging to a disk. */
  datatype Partition = Partition(
    name: string,
    mountPoint: Path,
    fileSystem: string,
    readOnly: bool)

  /** Identity and metadata of one storage device. */
  datatype Disk = Disk(
    name: Path,
    model: string,
    serialNumber: string,
    diskType: DiskType,
    partitions: seq<Partition>,
    version: string,
    totalSpace: u64,
    usedSpace: u64,
    freeSpace: u64)

  /** The names of the variants, in declaration order. */
  const VariantNames: seq<string> := ["HDD", "SSD", "Partition", "Removable", "RAID", "Unknown"]

  /** The position of a variant in the declaration. */
  function Ordinal(t: DiskType): (i: nat)
    ensures i < |VariantNames|
  {
    match t
    case HDD => 0
    case SSD => 1
    case Partition => 2
    case Removable => 3
    case RAID => 4
    case Unknown => 5
  }

  /** `Display for DiskType`: formats the value with `{:?}`, which for a
      field-less enum derived `Debug` is the variant's identifier. */
  function Display(t: DiskType): (s: string)
    ensures s == VariantNames[Ordinal(t)]
  {
    match t
    case HDD => "HDD"
    case SSD => "SSD"
    case Partition => "Partition"
    case Removable => "Removable"
    case RAID => "RAID"
    case Unknown => "Unknown"
  }

  /** The variant with a given position: together with `Ordinal` it shows
      that the enum has exactly six variants, in declaration order. */
  function FromOrdinal(i: nat): (t: DiskType)
    requires i < |VariantNames|
    ensures Ordinal(t) == i
  {
    [HDD, SSD, DiskType.Partition, Removable, RAID, Unknown][i]
  }

  lemma OrdinalIsInjective(t: DiskType, u: DiskType)
    ensures Ordinal(t) == Ordinal(u) ==> t == u
    ensures FromOrdinal(Ordinal(t)) == t
  {
  }

  /** Distinct variants display as distinct strings, so the displayed name
      identifies the variant. */
  lemma DisplayIsInjective(t: DiskType, u: DiskType)
    ensures Display(t) == Display(u) ==> t == u
  {
  }
}
