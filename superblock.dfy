/**
 * Reading the fields of an ext2/3/4 or XFS superblock from a device image.
 * The image is the byte content of the device; `f.seek(o); f.read(n)` is
 * `Read(img, o, n)`, which gives fewer than `n` bytes (possibly none) when
 * the image ends early. Only the integer decoders can fail on such a short
 * read; the UUID and label decoders accept whatever bytes they get.
 */
module Superblock {
  import opened Results
  import opened IntCodec
  import opened TextCodec
  import opened MountOptions

  /** A value stored in the information dictionary. */
  datatype Value = Int(n: int) | Text(s: string) | Bytes(b: seq<Byte>)

  /** The keys of the information dictionary. */
  datatype Field =
    | BlockSize | MaxMntCount | CheckInterval | RevLevel | InodeSize
    | Uuid | Label | DefaultMountOpts | RaidStride | RaidStripeWidth
  {
    /** The key string the dictionary uses for this field. */
    function Name(): string {
      match this
      case BlockSize => "block_size"
      case MaxMntCount => "max_mnt_count"
      case CheckInterval => "checkinterval"
      case RevLevel => "rev_level"
      case InodeSize => "inode_size"
      case Uuid => "uuid"
      case Label => "label"
      case DefaultMountOpts => "default_mount_opts"
      case RaidStride => "raid_stride"
      case RaidStripeWidth => "raid_stripe_width"
    }
  }

  /** The information dictionary. */
  type Record = map<Field, Value>

  /** The ext2 superblock starts 1024 bytes into the device. */
  const Ext2SbStart: nat := 1024

  /** The XFS superblock starts at the beginning of the device. */
  const XfsSbStart: nat := 0

  /** An ext2 image is long enough for every integer field once it reaches the end of `s_raid_stripe_width`. */
  const Ext2MinLength: nat := Ext2SbStart + 368 + 4

  /** An XFS image is long enough once it holds `sb_blocksize`. */
  const XfsMinLength: nat := XfsSbStart + 4 + 4

  const Ext2Keys: set<Field> := {BlockSize, MaxMntCount, CheckInterval, RevLevel, InodeSize,
                                 Uuid, Label, DefaultMountOpts, RaidStride, RaidStripeWidth}

  const XfsKeys: set<Field> := {BlockSize, Uuid, Label}

  /** `f.seek(off); f.read(n)`: up to `n` bytes from `off`, cut short at the end of the image. */
  function Read(img: seq<Byte>, off: nat, n: nat): (r: seq<Byte>)
    ensures |r| <= n
    ensures |r| == n <==> n == 0 || off + n <= |img|
    ensures |r| == Min(off + n, |img|) - Min(off, |img|)
    ensures r <= img[Min(off, |img|)..]
    ensures off + n <= |img| ==> r == img[off..off + n]
    ensures off >= |img| ==> r == []
  {
    Slice(img, off, off + n)
  }

  /** The default-mount-option word of an ext2 image (`s_default_mount_opts`). */
  function MountWord(img: seq<Byte>): nat
    requires |img| >= Ext2MinLength
  {
    LeValue(img[Ext2SbStart + 256..Ext2SbStart + 260])
  }

  /**
   * The ext2 information dictionary, read straight off the image at the
   * absolute offsets of the superblock fields (superblock offset + 1024):
   * `s_log_block_size` at 1048, `s_max_mnt_count` at 1078,
   * `s_checkinterval` at 1092, `s_rev_level` at 1100, `s_inode_size` at
   * 1112, `s_uuid` at 1128, `s_volume_name` at 1144,
   * `s_default_mount_opts` at 1280, `s_raid_stride` at 1380 and
   * `s_raid_stripe_width` at 1392, all little-endian. `Error` when the
   * image ends before the last integer field or the mount options have no
   * text.
   */
  function Ext2Info(img: seq<Byte>): Result<Record> {
    if |img| < Ext2MinLength then Error
    else
      var opts := Join(OptionList(MountWord(img)));
      if opts.Error? then Error
      else
        var rev := LeValue(img[1100..1104]);
        Ok(map[
          BlockSize := Int(1024 * Pow2(LeValue(img[1048..1052]))),
          MaxMntCount := Int(ToSigned(LeValue(img[1078..1080]), 2)),
          CheckInterval := Int(LeValue(img[1092..1096])),
          RevLevel := Int(rev),
          InodeSize := Int(if rev >= 1 then LeValue(img[1112..1114]) else 128),
          Uuid := Text(UuidText(img[1128..1144])),
          Label := Bytes(CString(img[1144..1160])),
          DefaultMountOpts := Text(opts.value),
          RaidStride := Int(LeValue(img[1380..1382])),
          RaidStripeWidth := Int(LeValue(img[1392..1396]))
        ])
  }

  /**
   * `ext2_get_info`: seeks to each field in turn and stores what it decodes
   * in a fresh dictionary; the first short integer read, or a mount-option
   * bit without a name, raises.
   */
  method Ext2GetInfo(img: seq<Byte>) returns (r: Result<Record>)
    ensures r == Ext2Info(img)
  {
    var info: Record := map[];

    var blockLog :- LeUint32(Read(img, Ext2SbStart + 24, 4));
    info := info[BlockSize := Int(1024 * Pow2(blockLog))];

    var maxMounts :- LeSint16(Read(img, Ext2SbStart + 54, 2));
    info := info[MaxMntCount := Int(maxMounts)];

    var interval :- LeUint32(Read(img, Ext2SbStart + 68, 4));
    info := info[CheckInterval := Int(interval)];

    var revLevel :- LeUint32(Read(img, Ext2SbStart + 76, 4));
    info := info[RevLevel := Int(revLevel)];

    if revLevel >= 1 {
      var inodeSize :- LeUint16(Read(img, Ext2SbStart + 88, 2));
      info := info[InodeSize := Int(inodeSize)];
    } else {
      info := info[InodeSize := Int(128)];
    }

    info := info[Uuid := Text(UuidText(Read(img, Ext2SbStart + 104, 16)))];
    info := info[Label := Bytes(CString(Read(img, Ext2SbStart + 120, 16)))];

    var word :- LeUint32(Read(img, Ext2SbStart + 256, 4));
    var mntopts := DefaultMountOptions(word);
    var text :- mntopts;
    info := info[DefaultMountOpts := Text(text)];

    var stride :- LeUint16(Read(img, Ext2SbStart + 356, 2));
    info := info[RaidStride := Int(stride)];

    var stripeWidth :- LeUint32(Read(img, Ext2SbStart + 368, 4));
    info := info[RaidStripeWidth := Int(stripeWidth)];

    return Ok(info);
  }

  /**
   * The ext2 reader succeeds exactly when the image reaches the end of
   * `s_raid_stripe_width` and every set bit of the mount-option word has a
   * name.
   */
  lemma Ext2InfoOkIff(img: seq<Byte>)
    ensures Ext2Info(img).Ok? <==> |img| >= Ext2MinLength && AllBitsNamed(MountWord(img))
  {
    if |img| >= Ext2MinLength {
      OptionsDefinedIff(MountWord(img));
    }
  }

  /** A successful ext2 read fills in all ten keys. */
  lemma Ext2InfoKeys(img: seq<Byte>)
    requires Ext2Info(img).Ok?
    ensures Ext2Info(img).value.Keys == Ext2Keys
  {
  }

  /**
   * The integer fields of a successful ext2 read: the block size is 1024
   * shifted left by `s_log_block_size`, so at least 1024; the maximum mount
   * count is the signed 16-bit value `conv_le_sint16` gives; a revision-0
   * file system reports 128-byte inodes without reading `s_inode_size`.
   */
  lemma Ext2InfoIntegers(img: seq<Byte>)
    requires Ext2Info(img).Ok?
    ensures var info := Ext2Info(img).value;
      && info[BlockSize] == Int(1024 * Pow2(LeUint32(img[1048..1052]).value))
      && info[BlockSize].n >= 1024
      && info[MaxMntCount] == Int(LeSint16(img[1078..1080]).value)
      && (LeValue(img[1100..1104]) == 0 ==> info[InodeSize] == Int(128))
  {
  }

  /** `img` and `img2` agree everywhere except possibly at `s_inode_size` (bytes 1112 and 1113). */
  predicate SameOutsideInodeSize(img: seq<Byte>, img2: seq<Byte>) {
    |img| == |img2| && forall k :: 0 <= k < |img| && !(1112 <= k < 1114) ==> img[k] == img2[k]
  }

  /**
   * On a revision-0 file system `s_inode_size` is never read: whatever those
   * two bytes hold, the outcome is the same.
   */
  lemma Ext2InodeSizeUnreadOnRev0(img: seq<Byte>, img2: seq<Byte>)
    requires |img| >= Ext2MinLength && LeValue(img[1100..1104]) == 0
    requires SameOutsideInodeSize(img, img2)
    ensures Ext2Info(img) == Ext2Info(img2)
  {
    assert img[1048..1052] == img2[1048..1052];
    assert img[1078..1080] == img2[1078..1080];
    assert img[1092..1096] == img2[1092..1096];
    assert img[1100..1104] == img2[1100..1104];
    assert img[1128..1144] == img2[1128..1144];
    assert img[1144..1160] == img2[1144..1160];
    assert img[1280..1284] == img2[1280..1284];
    assert img[1380..1382] == img2[1380..1382];
    assert img[1392..1396] == img2[1392..1396];
  }

  /** The UUID of a successful ext2 read is canonical and parses back to the sixteen `s_uuid` bytes. */
  lemma Ext2InfoUuid(img: seq<Byte>)
    requires Ext2Info(img).Ok?
    ensures var u := Ext2Info(img).value[Uuid];
      u.Text? && |u.s| == 36 && ParseUuid(u.s) == Some(img[1128..1144])
  {
    var b := img[1128..1144];
    assert Ext2Info(img).value[Uuid] == Text(UuidText(b));
    ParseUuidText(b);
  }

  /** The label of a successful ext2 read is the `s_volume_name` bytes up to the first NUL. */
  lemma Ext2InfoLabel(img: seq<Byte>)
    requires Ext2Info(img).Ok?
    ensures var l := Ext2Info(img).value[Label];
      && l.Bytes? && 0 !in l.b && |l.b| <= 16 && l.b <= img[1144..1160]
      && (|l.b| < 16 ==> img[1144 + |l.b|] == 0)
  {
    assert Ext2Info(img).value[Label] == Bytes(CString(img[1144..1160]));
  }

  /** The XFS information dictionary: `sb_blocksize` big-endian at 4, `sb_uuid` at 32, `sb_fname` at 108. */
  function XfsInfo(img: seq<Byte>): Result<Record> {
    if |img| < XfsMinLength then Error
    else
      Ok(map[
        BlockSize := Int(BeValue(img[4..8])),
        Uuid := Text(UuidText(Read(img, 32, 16))),
        Label := Bytes(CString(Read(img, 108, 12)))
      ])
  }

  /**
   * `xfs_get_info`: the block size, the UUID and the label, in that order.
   * Only the block-size read can fail.
   */
  method XfsGetInfo(img: seq<Byte>) returns (r: Result<Record>)
    ensures r == XfsInfo(img)
  {
    var info: Record := map[];

    var blockSize :- BeUint32(Read(img, XfsSbStart + 4, 4));
    info := info[BlockSize := Int(blockSize)];

    info := info[Uuid := Text(UuidText(Read(img, XfsSbStart + 32, 16)))];
    info := info[Label := Bytes(CString(Read(img, XfsSbStart + 108, 12)))];

    return Ok(info);
  }

  /**
   * What an XFS read holds: it succeeds exactly on images of at least 8
   * bytes, with all three keys; the UUID is canonical and parses back to
   * `sb_uuid` when the image holds all of it, and is otherwise built from
   * whatever bytes are there; the label is `sb_fname` up to its first NUL.
   */
  lemma XfsInfoFields(img: seq<Byte>)
    ensures XfsInfo(img).Ok? <==> |img| >= XfsMinLength
    ensures XfsInfo(img).Ok? ==> var info := XfsInfo(img).value;
      && info.Keys == XfsKeys
      && info[BlockSize] == Int(BeUint32(img[4..8]).value)
      && (|img| >= 48 ==> ParseUuid(info[Uuid].s) == Some(img[32..48]))
      && (|img| < 48 ==> |info[Uuid].s| < 36)
      && (|img| < 48 ==> UuidDigits(info[Uuid].s) == Hexlify(img[Min(32, |img|)..]))
      && var l, f := info[Label].b, img[Min(108, |img|)..Min(120, |img|)];
        0 !in l && |l| <= 12 && l <= f && (|l| < |f| ==> f[|l|] == 0)
  {
    if XfsInfo(img).Ok? {
      XfsInfoUuid(img);
      XfsInfoLabel(img);
    }
  }

  /**
   * The XFS UUID is `sb_uuid` (bytes 32 to 47) in canonical form when the
   * image holds all of it; otherwise it is built from whatever bytes are
   * there: its hyphens follow the clamped groups, and cutting them out gives
   * exactly the hex text of those bytes.
   */
  lemma XfsInfoUuid(img: seq<Byte>)
    requires XfsInfo(img).Ok?
    ensures var u := XfsInfo(img).value[Uuid];
      && u.Text?
      && (|img| >= 48 ==> ParseUuid(u.s) == Some(img[32..48]))
      && (|img| < 48 ==> var tail := img[Min(32, |img|)..];
            && |u.s| < 36
            && ClampedHyphens(u.s, 2 * |tail|)
            && UuidDigits(u.s) == Hexlify(tail))
  {
    var b := Read(img, 32, 16);
    assert XfsInfo(img).value[Uuid] == Text(UuidText(b));
    if |img| >= 48 {
      ParseUuidText(b);
    } else {
      assert b == img[Min(32, |img|)..];
      UuidTextAnyLength(b);
    }
  }

  /**
   * The XFS label is `sb_fname` (bytes 108 to 119, or as many of them as the
   * image holds) up to its first NUL.
   */
  lemma XfsInfoLabel(img: seq<Byte>)
    requires XfsInfo(img).Ok?
    ensures var l := XfsInfo(img).value[Label];
      var f := img[Min(108, |img|)..Min(120, |img|)];
      && l.Bytes? && |l.b| <= 12 && 0 !in l.b && l.b <= f
      && (|l.b| < |f| ==> f[|l.b|] == 0)
  {
    var f := img[Min(108, |img|)..Min(120, |img|)];
    assert Read(img, 108, 12) == f;
    assert XfsInfo(img).value[Label] == Bytes(CString(f));
  }

  /** `sb_blocksize` bytes `00 00 10 00` read as a 4096-byte block size. */
  lemma XfsBlockSizeExample(img: seq<Byte>)
    requires |img| >= XfsMinLength && img[4..8] == [0x00, 0x00, 0x10, 0x00]
    ensures XfsInfo(img) == Ok(XfsInfo(img).value) && XfsInfo(img).value[BlockSize] == Int(4096)
  {
    var b: seq<Byte> := [0x00, 0x00, 0x10, 0x00];
    assert BeValue(b[..1]) == 0x00;
    assert BeValue(b[..2]) == 0x00 by { assert b[..2][..1] == b[..1]; }
    assert BeValue(b[..3]) == 0x10 by { assert b[..3][..2] == b[..2]; }
    assert BeValue(b) == 0x1000 by { assert b[..3] == b[..|b| - 1]; }
  }
}
