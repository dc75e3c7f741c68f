# fsutils superblock decoding, in Dafny

`fsutils.py` (fsbackup) finds the parameters a file system was created with by
reading its superblock straight off the block device, so that the file system
can later be re-created with `mkfs` and `tune2fs`. This project models the
decoding half of that module:

- the sixteen fixed-width integer readers `conv_le_*` / `conv_be_*`, which are
  `struct.unpack` with one standard-size format character each;
- `conv_string`, which cuts a label at its first NUL;
- `conv_uuid`, which renders bytes as lowercase hex in the 8-4-4-4-12 grouping
  of section 3 of RFC 4122;
- `ext2_mntopt_string` and the loop of `ext2_get_info` that turns the
  `s_default_mount_opts` word into a comma-separated option list;
- `ext2_get_info` (superblock at byte 1024, little-endian fields) and
  `xfs_get_info` (superblock at byte 0, big-endian fields), which fill a
  dictionary field by field.

The device is a byte sequence `img: seq<Byte>`. `f.seek(o); f.read(n)` is
`Superblock.Read(img, o, n)`: Python's clamped slice, which gives fewer bytes
(possibly none) past the end of the image. Only the `unpack`-based readers fail
on such a short read. `struct.error` and the `TypeError` that `','.join`
raises on a `None` become the single outcome `Results.Error`.

Layout:

- `results.dfy` (`Results`): `Option` and `Result`.
- `int_codec.dfy` (`IntCodec`): little- and big-endian values, `Unpack` and
  `Pack`, and the sixteen readers.
- `text_codec.dfy` (`TextCodec`): `CString`, `Hexlify`/`Unhexlify`, `UuidText`
  and its parser.
- `mount_options.dfy` (`MountOptions`): the option-name table, bitwise `&` on
  unbounded integers, the list the loop builds, the join, and the loop
  itself as the method `DefaultMountOptions`.
- `superblock.dfy` (`Superblock`): the dictionary (`map<Field, Value>`), the
  reference functions `Ext2Info` and `XfsInfo` that read each field straight
  off the image, and the methods `Ext2GetInfo` and `XfsGetInfo` that do it
  step by step as the source does, each proved equal to its reference.

Three behaviours of the code that a reader may not expect, all modelled as
written:

- `conv_string` on a field with no NUL returns the whole field, since
  `split(b'\0', 1)[0]` then has nothing to cut (fsutils.py:54).
- When either journal-mode bit of 0x0060 is set, `journal_data_writeback` is
  emitted first, and the scan that follows still adds `journal_data` and/or
  `journal_data_ordered` for the single bits (fsutils.py:125-131).
- A set bit of the mount-option word with no name (bit 7, or any bit from 12
  to 31) makes `ext2_mntopt_string` return `None`, and `','.join` then raises,
  so `ext2_get_info` fails on an image of full length (fsutils.py:129-132).

## Model

| member | source | states |
|---|---|---|
| IntCodec.Unpack | fsutils.py:5-51 | `struct.unpack` succeeds exactly when the input has the width of the format, and its value then lies in the format's unsigned or two's-complement range |
| IntCodec.UnpackPack | fsutils.py:5-51 | encoding any in-range value and decoding it gives the value back, for all sixteen formats |
| IntCodec.PackUnpack | fsutils.py:5-51 | decoding a full-width field and re-encoding the value gives the same bytes |
| IntCodec.BigIsLittleReversed | fsutils.py:29-51 | each big-endian reader on `b` equals the matching little-endian reader on `b` reversed |
| IntCodec.LeValueOfLeBytes | fsutils.py:5-27 | the little-endian value of the encoding of `v` in `n` bytes is `v` when `v < 256^n` |
| IntCodec.LeBytesOfLeValue | fsutils.py:5-27 | re-encoding the little-endian value of `b` in `len(b)` bytes gives `b` |
| IntCodec.BeValueOfBeBytes | fsutils.py:29-51 | the big-endian value of the encoding of `v` in `n` bytes is `v` when `v < 256^n` |
| IntCodec.BeBytesOfBeValue | fsutils.py:29-51 | re-encoding the big-endian value of `b` in `len(b)` bytes gives `b` |
| IntCodec.BeValueIsLeValueOfReverse | fsutils.py:29-51 | a big-endian value is the little-endian value of the reversed bytes |
| IntCodec.LeUint8 | fsutils.py:5-6 | `conv_le_uint8`: succeeds iff one byte is given, and then is that byte |
| IntCodec.LeUint16 | fsutils.py:8-9 | `conv_le_uint16`: succeeds iff two bytes; the little-endian value, in [0, 2^16) |
| IntCodec.LeUint32 | fsutils.py:11-12 | `conv_le_uint32`: succeeds iff four bytes; the little-endian value, in [0, 2^32) |
| IntCodec.LeUint64 | fsutils.py:14-15 | `conv_le_uint64`: succeeds iff eight bytes; the little-endian value, in [0, 2^64) |
| IntCodec.LeSint8 | fsutils.py:17-18 | `conv_le_sint8`: succeeds iff one byte; the byte, less 256 when it is at least 0x80 |
| IntCodec.LeSint16 | fsutils.py:20-21 | `conv_le_sint16`: succeeds iff two bytes; the value in [-2^15, 2^15) congruent to the little-endian value mod 2^16 |
| IntCodec.LeSint32 | fsutils.py:23-24 | `conv_le_sint32`: succeeds iff four bytes; the value in [-2^31, 2^31) congruent to the little-endian value mod 2^32 |
| IntCodec.LeSint64 | fsutils.py:26-27 | `conv_le_sint64`: succeeds iff eight bytes; the value in [-2^63, 2^63) congruent to the little-endian value mod 2^64 |
| IntCodec.BeUint8 | fsutils.py:29-30 | `conv_be_uint8`: succeeds iff one byte is given, and then is that byte |
| IntCodec.BeUint16 | fsutils.py:32-33 | `conv_be_uint16`: succeeds iff two bytes; the big-endian value, in [0, 2^16) |
| IntCodec.BeUint32 | fsutils.py:35-36 | `conv_be_uint32`: succeeds iff four bytes; the big-endian value, in [0, 2^32) |
| IntCodec.BeUint64 | fsutils.py:38-39 | `conv_be_uint64`: succeeds iff eight bytes; the big-endian value, in [0, 2^64) |
| IntCodec.BeSint8 | fsutils.py:41-42 | `conv_be_sint8`: succeeds iff one byte; the byte, less 256 when it is at least 0x80 |
| IntCodec.BeSint16 | fsutils.py:44-45 | `conv_be_sint16`: succeeds iff two bytes; the value in [-2^15, 2^15) congruent to the big-endian value mod 2^16 |
| IntCodec.BeSint32 | fsutils.py:47-48 | `conv_be_sint32`: succeeds iff four bytes; the value in [-2^31, 2^31) congruent to the big-endian value mod 2^32 |
| IntCodec.BeSint64 | fsutils.py:50-51 | `conv_be_sint64`: succeeds iff eight bytes; the value in [-2^63, 2^63) congruent to the big-endian value mod 2^64 |
| TextCodec.CString | fsutils.py:53-54 | `conv_string` never fails; its result is a prefix of the input without NUL, followed in the input by a NUL unless it is the whole input |
| TextCodec.CStringNoNul | fsutils.py:53-54 | a field without NUL comes back whole |
| TextCodec.CStringLeadingNul | fsutils.py:53-54 | a field starting with NUL gives the empty label |
| TextCodec.Hexlify | fsutils.py:56-58 | `hexlify` gives two characters per byte |
| TextCodec.HexlifyAt | fsutils.py:56-58 | hex character `j` is the high nibble of byte `j/2` for even `j` and its low nibble for odd `j`, in lowercase |
| TextCodec.UnhexlifyHexlify | fsutils.py:56-58 | decoding the hex text gives the bytes back |
| TextCodec.UuidText | fsutils.py:56-58 | `conv_uuid` never fails: any input gives `2*len(b) + 4` characters; where the hyphens go is stated by `UuidHyphensAt` |
| TextCodec.UuidHyphens | fsutils.py:56-58 | on 16 bytes the hyphens sit at positions 8, 13, 18 and 23 |
| TextCodec.UuidLayout | fsutils.py:56-58 | on 16 bytes the text has 36 characters, a hyphen exactly at 8, 13, 18, 23, lowercase hex digits elsewhere, and byte `i` as the `i`-th digit pair |
| TextCodec.ParseUuidText | fsutils.py:56-58 | on 16 bytes the UUID text parses back to the same bytes, so the rendering loses nothing |
| TextCodec.UuidDigitsOfText | fsutils.py:56-58 | for input of any length, cutting the hyphens out of the UUID text gives exactly the hex text of every byte, which decodes back to the bytes |
| TextCodec.UuidHyphensAt | fsutils.py:56-58 | for input of any length with `n = 2*len(b)` digits, the hyphens sit at `min(8,n)`, `min(12,n)+1`, `min(16,n)+2` and `min(20,n)+3`: the slices clamp, so short input gives short or empty groups |
| TextCodec.UuidTextAnyLength | fsutils.py:56-58 | for input of any length the text is fixed: `2*len(b) + 4` characters, the hyphens after the clamped groups, and the hex digits of every byte in order between them |
| TextCodec.UuidOfZeros | fsutils.py:56-58 | sixteen zero bytes render as `00000000-0000-0000-0000-000000000000` |
| MountOptions.OptionName | fsutils.py:60-84 | `ext2_mntopt_string` has a name for exactly the twelve listed mask values and returns `None` for any other |
| MountOptions.SingleBitNamed | fsutils.py:60-84 | a single-bit mask `1 << i` has a name exactly when `i` is 0-6 or 8-11, and is never the journal-mode pair 0x0060 |
| MountOptions.AndSingleBit | fsutils.py:129 | `w & (1 << i)` is non-zero exactly when bit `i` of `w` is set |
| MountOptions.SetBitsExact | fsutils.py:128-131 | the positions the scan visits with a set bit are exactly the set bits below the bound |
| MountOptions.SetBitsAscending | fsutils.py:128-131 | the scan finds the set bits in strictly ascending order |
| MountOptions.Join | fsutils.py:132 | `','.join` fails exactly when some item is `None`; an empty list joins to the empty string and one item to itself |
| MountOptions.SplitJoin | fsutils.py:132 | the partner of the join: when no item holds a comma, splitting the joined text on commas gives back every item in order, so the separator is exactly one comma |
| MountOptions.JoinTwo | fsutils.py:132 | two names join to `a,b` |
| MountOptions.JoinThree | fsutils.py:132 | three names join to `a,b,c` |
| MountOptions.DefaultMountOptions | fsutils.py:124-132 | the loop, with `m` doubling from 1 over 32 steps, produces the join of the journal-mode name (when `w & 0x0060`) followed by one lookup per set bit, in ascending order |
| MountOptions.JournalModeBits | fsutils.py:125 | `w & 0x0060` is non-zero exactly when bit 5 or bit 6 of `w` is set |
| MountOptions.OptionListOrder | fsutils.py:124-132 | `w & 0x0060` is non-zero exactly when bit 5 or 6 is set, and then the journal-mode name comes first; then exactly the lookups of the set bits below 32, in ascending order |
| MountOptions.OptionsDefinedIff | fsutils.py:124-132 | the option text exists exactly when every set bit below 32 has a name |
| MountOptions.OptionNamesCommaFree | fsutils.py:60-84 | no option name contains a comma |
| MountOptions.OptionTextSplits | fsutils.py:124-132 | a successful, non-empty option text splits on commas into exactly the names of the option list, in order |
| MountOptions.UnnamedBitFails | fsutils.py:60-84 | one set bit without a name makes the join fail |
| MountOptions.ExampleBothJournalBits | fsutils.py:125-131 | 0x0060 lists `journal_data_writeback`, `journal_data`, `journal_data_ordered` |
| MountOptions.ExampleOneJournalBit | fsutils.py:125-131 | 0x0020 lists `journal_data_writeback`, `journal_data` |
| MountOptions.ExampleDebugAcl | fsutils.py:128-131 | 0x0009 lists `debug`, `acl` |
| MountOptions.ExampleBothJournalBitsText | fsutils.py:124-132 | 0x0060 gives the text `journal_data_writeback,journal_data,journal_data_ordered` |
| MountOptions.ExampleOneJournalBitText | fsutils.py:124-132 | 0x0020 gives the text `journal_data_writeback,journal_data` |
| MountOptions.ExampleDebugAclText | fsutils.py:124-132 | 0x0009 gives the text `debug,acl` |
| MountOptions.ExampleNoBits | fsutils.py:124-132 | 0 gives the empty text |
| MountOptions.ExampleBit7Unnamed | fsutils.py:60-84 | 0x0080 gives a single `None`, so the join fails |
| MountOptions.ExampleBit12Unnamed | fsutils.py:60-84 | 0x1000 gives a single `None`, so the join fails |
| Superblock.Read | fsutils.py:91-92 | `f.seek(o); f.read(n)` returns at most `n` bytes, exactly `n` iff the image reaches `o + n`, and then `img[o..o+n]`; in every case it returns `min(o+n, len) - min(o, len)` bytes and they start the image's tail from `min(o, len)`, which is Python's clamped slice `img[o:o+n]` |
| Superblock.Ext2GetInfo | fsutils.py:86-142 | the step-by-step reader returns exactly `Ext2Info(img)` |
| Superblock.Ext2InfoOkIff | fsutils.py:86-142 | ext2 reading succeeds iff the image has at least 1396 bytes and every set mount-option bit has a name |
| Superblock.Ext2InfoKeys | fsutils.py:86-142 | a successful read has exactly the ten keys |
| Superblock.Ext2InfoIntegers | fsutils.py:90-111 | `block_size` is `1024 << le_u32@1048`, at least 1024; `max_mnt_count` is `conv_le_sint16` of bytes 1078-1079; `inode_size` is 128 when `rev_level` is 0 |
| Superblock.Ext2InodeSizeUnreadOnRev0 | fsutils.py:106-111 | on a revision-0 file system the bytes of `s_inode_size` do not affect the result |
| Superblock.Ext2InfoUuid | fsutils.py:113-115 | the ext2 UUID is 36 characters and parses back to bytes 1128-1143 |
| Superblock.Ext2InfoLabel | fsutils.py:117-119 | the ext2 label is a NUL-free prefix of bytes 1144-1159, followed there by a NUL unless it is all 16 bytes |
| Superblock.XfsGetInfo | fsutils.py:190-206 | the step-by-step reader returns exactly `XfsInfo(img)` |
| Superblock.XfsInfoFields | fsutils.py:190-206 | XFS reading succeeds iff the image has at least 8 bytes; three keys; `block_size` is `conv_be_uint32` of bytes 4-7; the UUID parses back to bytes 32-47 when present; otherwise it is shorter than 36 characters and its hex digits are exactly those of the bytes from 32 on; the label is the NUL-free prefix of bytes 108-119 (as many as the image holds), of at most 12 bytes, followed there by a NUL unless it is that whole field |
| Superblock.XfsInfoUuid | fsutils.py:198-200 | the XFS UUID parses back to bytes 32-47 when the image holds them; on a shorter image its hyphens follow the clamped groups and cutting them out gives the hex text of whatever bytes lie from 32 on |
| Superblock.XfsInfoLabel | fsutils.py:202-204 | the XFS label is a NUL-free prefix of bytes 108-119 (as many as the image holds), followed there by a NUL unless it is that whole field |
| Superblock.XfsBlockSizeExample | fsutils.py:194-196 | `sb_blocksize` bytes `00 00 10 00` give a block size of 4096 |

## Left out

- Opening, seeking and closing the device: the device is an immutable byte
  sequence, and I/O errors (a missing device, a permission failure) are not
  modelled.
- `ext2_get_mkfs`, `ext2_get_extra`, `xfs_get_mkfs` and `xfs_get_extra`: they
  only format shell command strings. The one rule in them beyond formatting is
  that `ext2_get_extra` turns `checkinterval` from seconds into days with
  Python 2 integer division by 86400; that is not part of this model.
- `setup.py`: packaging metadata.
- Python 2 `str`/`bytes` typing: the label stays a byte sequence and the UUID
  and option list are character strings.
- Exception types: `struct.error` and `TypeError` are the one `Error`
  outcome, so the model does not say which one was raised.
- Dictionary keys: the key strings are the `Superblock.Field` values, and
  `Field.Name` gives the string each one stands for.
- Superblock.Ext2GetInfo: does not say which read failed first on a short
  image, because every failure is the same `Error`.
