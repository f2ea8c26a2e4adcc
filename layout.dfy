/**
 * The block-device layout an instance of a type is launched with (`VmTypes.asVmTypeInfo` and
 * its four mappers): the root device, the ephemeral (instance-store scratch) partition, the
 * swap partition and, for images that boot from block storage, the EBS root.
 *
 * Sizes are Java `long`s: every subtraction is wrapped to 64 bits as the JVM does.
 */
module Layout {
  import opened Wrappers
  import opened InstanceTypes

  const GIB: int := 1024 * 1024 * 1024
  /** Swap is fixed at 512 MiB. */
  const SWAP_SIZE_BYTES: int := 512 * 1024 * 1024
  /** The smallest ext2/3/4 partition there can be. */
  const MIN_EPHEMERAL_SIZE_BYTES: int := 61440

  /** The two formatting switches (`FORMAT_EPHEMERAL_STORAGE`, `FORMAT_SWAP`). */
  datatype LayoutConfig = LayoutConfig(formatEphemeralStorage: bool, formatSwap: bool)

  /** Their initial values: format the ephemeral partition, leave swap unformatted. */
  const DEFAULT_CONFIG: LayoutConfig := LayoutConfig(true, false)

  /** Which kind of `BootableImageInfo` the image is. */
  datatype ImageClass = MachineImage | BlockStorageImage | OtherImage

  datatype Platform = Linux | Windows

  /**
   * What the layout needs to know of an image. `rootIsPartition` is what
   * `ImageManager.isPathAPartition(rootDeviceName)` answers for it.
   */
  datatype BootableImage = BootableImage(
    imageClass: ImageClass,
    platform: Platform,
    rootDeviceName: string,
    rootIsPartition: bool,
    displayName: string,
    sizeBytes: Int64)

  datatype EphemeralEntry = EphemeralEntry(index: nat, device: string, size: Int64, format: string)

  datatype SwapEntry = SwapEntry(device: string, size: Int64, format: string)

  datatype EbsRoot = EbsRoot(imageId: string, snapshotId: Option<string>, size: Int64)

  /** The layout handed to the back end with a launch request. */
  datatype VmTypeInfo = VmTypeInfo(
    name: string,
    memory: Int32,
    disk: Int32,
    cpu: Int32,
    rootDevice: string,
    ephemeral: seq<EphemeralEntry>,
    swap: Option<SwapEntry>,
    ebsRoot: Option<EbsRoot>)

  /** Why no layout could be produced; each carries the image size and the type it was checked against. */
  datatype LayoutError =
    | ImageTooLarge(imageSize: Int64, typeName: string, disk: Int32)
    | InsufficientSpace(imageSize: Int64, typeName: string, disk: Int32)
    | UnrecognizedImage

  /**
   * A type's instance-store disk in bytes. The `Int64` result type is what states that the
   * product of an `int` GiB count and 2^30 never leaves the `long` range.
   */
  function DiskBytes(t: VmType): (r: Int64)
    ensures r == t.disk * GIB
    ensures t.disk >= 0 ==> r >= 0
  {
    assert -0x8000_0000 * GIB <= t.disk * GIB < 0x8000_0000 * GIB;
    t.disk * GIB
  }

  function EphemeralFormat(cfg: LayoutConfig): string {
    if cfg.formatEphemeralStorage then "ext3" else "none"
  }

  function SwapFormat(cfg: LayoutConfig): string {
    if cfg.formatSwap then "swap" else "none"
  }

  /** The fields every mapper copies from the type, with the given root device and nothing attached. */
  function BaseInfo(t: VmType, rootDevice: string): VmTypeInfo {
    VmTypeInfo(t.name, t.memory, t.disk, t.cpu, rootDevice, [], None, None)
  }

  /** Carries the type's name, memory, disk and cpu into a layout. */
  predicate Stamped(r: VmTypeInfo, t: VmType) {
    r.name == t.name && r.memory == t.memory && r.disk == t.disk && r.cpu == t.cpu
  }

  /** `InstanceStoreVmTypeInfoMapper`: root "sda1" and the fixed 512 MiB swap on "sda3". */
  function InstanceStoreMapper(t: VmType, cfg: LayoutConfig): (r: VmTypeInfo)
    ensures Stamped(r, t) && r.rootDevice == "sda1" && r.ephemeral == [] && r.ebsRoot.None?
    ensures r.swap == Some(SwapEntry("sda3", SWAP_SIZE_BYTES, if cfg.formatSwap then "swap" else "none"))
  {
    BaseInfo(t, "sda1").(swap := Some(SwapEntry("sda3", SWAP_SIZE_BYTES, SwapFormat(cfg))))
  }

  /** `InstanceStoreWindowsVmTypeInfoMapper`: root "sda", nothing attached. */
  function InstanceStoreWindowsMapper(t: VmType): (r: VmTypeInfo)
    ensures Stamped(r, t) && r.rootDevice == "sda"
    ensures r.ephemeral == [] && r.swap.None? && r.ebsRoot.None?
  {
    BaseInfo(t, "sda")
  }

  /** `InstanceStoreLinuxHvmVmTypeInfoMapper`: root "sda", nothing attached. */
  function InstanceStoreLinuxHvmMapper(t: VmType): (r: VmTypeInfo)
    ensures Stamped(r, t) && r.rootDevice == "sda"
    ensures r.ephemeral == [] && r.swap.None? && r.ebsRoot.None?
  {
    BaseInfo(t, "sda")
  }

  /** `BlockStorageVmTypeInfoMapper`: root "sda", nothing attached. */
  function BlockStorageMapper(t: VmType): (r: VmTypeInfo)
    ensures Stamped(r, t) && r.rootDevice == "sda"
    ensures r.ephemeral == [] && r.swap.None? && r.ebsRoot.None?
  {
    BaseInfo(t, "sda")
  }

  /** The size check: an image that is not on block storage must fit the type's disk. */
  predicate TooLarge(t: VmType, img: BootableImage) {
    img.imageClass != BlockStorageImage && img.sizeBytes > t.disk * GIB
  }

  /** The bytes left on the disk of a para-virtual Linux instance after the image and swap. */
  function PvEphemeralBytes(t: VmType, img: BootableImage): Int64 {
    Wrap64(Wrap64(DiskBytes(t) - img.sizeBytes) - SWAP_SIZE_BYTES)
  }

  /** `asVmTypeInfo(vmType, img)`, with the formatting switches passed in. */
  function AsVmTypeInfo(t: VmType, img: BootableImage, cfg: LayoutConfig): (r: Result<VmTypeInfo, LayoutError>)
    ensures r.Success? ==> Stamped(r.value, t)
    ensures r.Success? ==> |r.value.ephemeral| <= 1
    ensures r.Success? ==> (r.value.ebsRoot.Some? <==> img.imageClass == BlockStorageImage)
    ensures r.Success? ==> (r.value.swap.Some? <==>
      img.imageClass == MachineImage && img.platform == Linux && img.rootIsPartition)
    ensures r == Failure(UnrecognizedImage) <==> img.imageClass == OtherImage && !TooLarge(t, img)
    ensures r.Failure? && r.error.ImageTooLarge? <==> TooLarge(t, img)
  {
    var imgSize := img.sizeBytes;
    var diskSize := DiskBytes(t);
    if img.imageClass != BlockStorageImage && imgSize > diskSize then
      Failure(ImageTooLarge(imgSize, t.name, t.disk))
    else
      match img.imageClass
      case MachineImage =>
        if img.platform == Windows then
          Success(InstanceStoreWindowsMapper(t).(
            ephemeral := [EphemeralEntry(0, "sdb", Wrap64(diskSize - imgSize), "none")]))
        else if !img.rootIsPartition then
          var rest := Wrap64(diskSize - imgSize);
          if rest > 0 then
            Success(InstanceStoreLinuxHvmMapper(t).(
              ephemeral := [EphemeralEntry(0, "sdb", rest, EphemeralFormat(cfg))]))
          else
            Success(InstanceStoreLinuxHvmMapper(t))
        else
          var ephemeralSize := PvEphemeralBytes(t, img);
          if ephemeralSize < MIN_EPHEMERAL_SIZE_BYTES then
            Failure(InsufficientSpace(imgSize, t.name, t.disk))
          else
            var base := InstanceStoreMapper(t, cfg);
            assert base.swap.Some? && img.platform == Linux;
            Success(base.(ephemeral := [EphemeralEntry(0, "sda2", ephemeralSize, EphemeralFormat(cfg))]))
      case BlockStorageImage =>
        Success(BlockStorageMapper(t).(
          rootDevice := img.rootDeviceName,
          ebsRoot := Some(EbsRoot(img.displayName, None, imgSize))))
      case OtherImage =>
        Failure(UnrecognizedImage)
  }

  /** The bytes of local disk a layout hands out besides the image: ephemeral entries and swap. */
  function LocalBytes(r: VmTypeInfo): int {
    SumSizes(r.ephemeral) + (if r.swap.Some? then r.swap.value.size else 0)
  }

  function SumSizes(entries: seq<EphemeralEntry>): int {
    if entries == [] then 0 else entries[0].size + SumSizes(entries[1..])
  }

  /** A Windows instance-store image: one unformatted "sdb" holding all the disk the image leaves. */
  lemma WindowsLayout(t: VmType, img: BootableImage, cfg: LayoutConfig)
    requires img.imageClass == MachineImage && img.platform == Windows
    requires 0 <= img.sizeBytes <= t.disk * GIB
    ensures AsVmTypeInfo(t, img, cfg) == Success(VmTypeInfo(t.name, t.memory, t.disk, t.cpu, "sda",
      [EphemeralEntry(0, "sdb", t.disk * GIB - img.sizeBytes, "none")], None, None))
  {
  }

  /** A Linux HVM instance-store image: "sdb" holds what the image leaves, and only if that is positive. */
  lemma LinuxHvmLayout(t: VmType, img: BootableImage, cfg: LayoutConfig)
    requires img.imageClass == MachineImage && img.platform == Linux && !img.rootIsPartition
    requires 0 <= img.sizeBytes <= t.disk * GIB
    ensures var rest := t.disk * GIB - img.sizeBytes;
      AsVmTypeInfo(t, img, cfg) == Success(VmTypeInfo(t.name, t.memory, t.disk, t.cpu, "sda",
        if rest > 0 then [EphemeralEntry(0, "sdb", rest, if cfg.formatEphemeralStorage then "ext3" else "none")] else [],
        None, None))
  {
  }

  /**
   * A Linux para-virtual instance-store image: swap is always reserved, and the layout fails
   * unless at least a minimal ext partition is left on "sda2" after the image and the swap.
   */
  lemma LinuxPvLayout(t: VmType, img: BootableImage, cfg: LayoutConfig)
    requires img.imageClass == MachineImage && img.platform == Linux && img.rootIsPartition
    requires 0 <= img.sizeBytes <= t.disk * GIB
    ensures var eph := t.disk * GIB - img.sizeBytes - SWAP_SIZE_BYTES;
      AsVmTypeInfo(t, img, cfg) ==
        if eph < MIN_EPHEMERAL_SIZE_BYTES then Failure(InsufficientSpace(img.sizeBytes, t.name, t.disk))
        else Success(VmTypeInfo(t.name, t.memory, t.disk, t.cpu, "sda1",
          [EphemeralEntry(0, "sda2", eph, if cfg.formatEphemeralStorage then "ext3" else "none")],
          Some(SwapEntry("sda3", SWAP_SIZE_BYTES, if cfg.formatSwap then "swap" else "none")), None))
  {
  }

  /** An image on block storage: no size check, root device from the image, EBS root of the image's size. */
  lemma BlockStorageLayout(t: VmType, img: BootableImage, cfg: LayoutConfig)
    requires img.imageClass == BlockStorageImage
    ensures AsVmTypeInfo(t, img, cfg) == Success(VmTypeInfo(t.name, t.memory, t.disk, t.cpu,
      img.rootDeviceName, [], None, Some(EbsRoot(img.displayName, None, img.sizeBytes))))
  {
  }

  /**
   * Disk accounting for instance-store images: when a layout is produced, the image, the
   * ephemeral partition and the swap together take exactly the type's disk, except that a
   * Linux HVM image filling the whole disk leaves nothing to add.
   */
  lemma InstanceStoreAccounting(t: VmType, img: BootableImage, cfg: LayoutConfig)
    requires img.imageClass == MachineImage && 0 <= img.sizeBytes
    requires AsVmTypeInfo(t, img, cfg).Success?
    ensures img.sizeBytes + LocalBytes(AsVmTypeInfo(t, img, cfg).value) == t.disk * GIB
  {
    var r := AsVmTypeInfo(t, img, cfg).value;
    assert SumSizes(r.ephemeral) == if r.ephemeral == [] then 0 else r.ephemeral[0].size by {
      if r.ephemeral != [] {
        assert r.ephemeral[1..] == [];
      }
    }
  }

  /** Ten GiB of disk and a five GiB para-virtual image leave 4.5 GiB of ephemeral storage. */
  lemma PvExampleFits()
    ensures var t := VmType("m1.small", 1, 10, 1741, 2, false);
      var img := BootableImage(MachineImage, Linux, "/dev/sda1", true, "emi-00000001", 5 * GIB);
      AsVmTypeInfo(t, img, DEFAULT_CONFIG).Success? &&
      AsVmTypeInfo(t, img, DEFAULT_CONFIG).value.ephemeral == [EphemeralEntry(0, "sda2", 4831838208, "ext3")] &&
      AsVmTypeInfo(t, img, DEFAULT_CONFIG).value.swap == Some(SwapEntry("sda3", 536870912, "none"))
  {
    var t := VmType("m1.small", 1, 10, 1741, 2, false);
    var img := BootableImage(MachineImage, Linux, "/dev/sda1", true, "emi-00000001", 5 * GIB);
    LinuxPvLayout(t, img, DEFAULT_CONFIG);
  }

  /** A 9.95 GiB para-virtual image on ten GiB of disk leaves no room for an ext partition after the swap. */
  lemma PvExampleInsufficient()
    ensures var t := VmType("m1.small", 1, 10, 1741, 2, false);
      var img := BootableImage(MachineImage, Linux, "/dev/sda1", true, "emi-00000001", 10683731148);
      AsVmTypeInfo(t, img, DEFAULT_CONFIG) == Failure(InsufficientSpace(10683731148, "m1.small", 10))
  {
    var t := VmType("m1.small", 1, 10, 1741, 2, false);
    var img := BootableImage(MachineImage, Linux, "/dev/sda1", true, "emi-00000001", 10683731148);
    LinuxPvLayout(t, img, DEFAULT_CONFIG);
  }

  /** An eight GiB block-storage image gets an EBS root of exactly eight GiB and no local partitions. */
  lemma BlockStorageExample()
    ensures var t := VmType("t2.micro", 1, 10, 1024, 2, true);
      var img := BootableImage(BlockStorageImage, Linux, "/dev/sda", false, "emi-00000002", 8 * GIB);
      AsVmTypeInfo(t, img, DEFAULT_CONFIG) == Success(VmTypeInfo("t2.micro", 1024, 10, 1, "/dev/sda",
        [], None, Some(EbsRoot("emi-00000002", None, 8589934592))))
  {
  }
}
