/** The Multiboot v1 boot information header ("Boot information format",
    section 3.3 of the Multiboot Specification 0.6.96) as the `Info` record
    of pkg/multiboot/info.go lays it out: 36 unsigned fields, 108 bytes, no
    padding between fields. */
module MultibootInfo {
  import opened Bytes

  type Uint32 = x: nat | x < 0x1_0000_0000
  type Uint16 = x: nat | x < 0x1_0000

  /** The header's capability bitset. */
  type Flag = Uint32

  // The capability bits, bit k being 1 << k.
  const FlagInfoMemory: Flag := 0x1
  const FlagInfoBootDev: Flag := 0x2
  const FlagInfoCmdLine: Flag := 0x4
  const FlagInfoMods: Flag := 0x8
  const FlagInfoAoutSyms: Flag := 0x10
  const FlagInfoElfSHDR: Flag := 0x20
  const FlagInfoMemMap: Flag := 0x40
  const FlagInfoDriveInfo: Flag := 0x80
  const FlagInfoConfigTable: Flag := 0x100
  const FlagInfoBootLoaderName: Flag := 0x200
  const FlagInfoAPMTable: Flag := 0x400
  const FlagInfoVideoInfo: Flag := 0x800
  const FlagInfoFrameBuffer: Flag := 0x1000

  /** The capability bits in declaration order, as the `iota` block lists them. */
  const Flags: seq<Flag> := [
    FlagInfoMemory, FlagInfoBootDev, FlagInfoCmdLine, FlagInfoMods,
    FlagInfoAoutSyms, FlagInfoElfSHDR, FlagInfoMemMap, FlagInfoDriveInfo,
    FlagInfoConfigTable, FlagInfoBootLoaderName, FlagInfoAPMTable,
    FlagInfoVideoInfo, FlagInfoFrameBuffer]

  /** 1 << k. */
  function Bit(k: nat): (r: nat)
    ensures r >= 1
  {
    if k == 0 then 1 else 2 * Bit(k - 1)
  }

  /** The k-th capability constant is 1 << k, so the thirteen flags are
      distinct single bits. */
  lemma FlagsAreBits()
    ensures |Flags| == 13
    ensures forall k | 0 <= k < |Flags| :: Flags[k] == Bit(k)
  {
    assert Bit(4) == 0x10;
    assert Bit(8) == 0x100;
    assert Bit(12) == 0x1000;
  }

  /** The four symbol-table words. */
  type Syms = s: seq<Uint32> | |s| == 4 witness [0, 0, 0, 0]

  /** The six colour-description bytes of the framebuffer. */
  type ColorInfo = s: seq<byte> | |s| == 6 witness [0, 0, 0, 0, 0, 0]

  /** The header, field for field in the order the kernel reads it.
      The spellings driversLength and drivesrAddr follow the Go record. */
  datatype Info = Info(
    flags: Flag,
    memLower: Uint32,
    memUpper: Uint32,
    bootDevice: Uint32,
    cmdLine: Uint32,
    modsCount: Uint32,
    modsAddr: Uint32,
    syms: Syms,
    mmapLength: Uint32,
    mmapAddr: Uint32,
    driversLength: Uint32,
    drivesrAddr: Uint32,
    configTable: Uint32,
    bootLoaderName: Uint32,
    apmTable: Uint32,
    vbeControlInfo: Uint32,
    vbeModeInfo: Uint32,
    vbeMode: Uint16,
    vbeInterfaceSeg: Uint16,
    vbeInterfaceOff: Uint16,
    vbeInterfaceLen: Uint16,
    framebufferAddr: Uint16,
    framebufferPitch: Uint16,
    framebufferWidth: Uint32,
    framebufferHeight: Uint32,
    framebufferBPP: byte,
    framebufferType: byte,
    colorInfo: ColorInfo)

  /** Size in bytes of the serialized header. */
  const SizeofInfo: nat := 108

  /** Byte offsets of the two pointer fields within the header. */
  const CmdLineOffset: nat := 16
  const BootLoaderNameOffset: nat := 64

  lemma Pow256Widths()
    ensures Pow256(1) == 0x100 && Pow256(2) == 0x1_0000 && Pow256(4) == 0x1_0000_0000
  {
  }

  function U32(x: Uint32, order: ByteOrder): (r: seq<byte>)
    ensures |r| == 4
  {
    EncodeUint(x, 4, order)
  }

  function U16(x: Uint16, order: ByteOrder): (r: seq<byte>)
    ensures |r| == 2
  {
    EncodeUint(x, 2, order)
  }

  /** The 32-bit fields at header offsets 0 to 79, in declaration order:
      flags, memory bounds, boot device, command-line pointer, modules,
      symbol table, memory map, drives, config table, bootloader-name
      pointer, APM table and the two VBE pointers. */
  function WordFields(info: Info): (ws: seq<Uint32>)
  {
    [info.flags, info.memLower, info.memUpper, info.bootDevice, info.cmdLine,
     info.modsCount, info.modsAddr,
     info.syms[0], info.syms[1], info.syms[2], info.syms[3],
     info.mmapLength, info.mmapAddr, info.driversLength, info.drivesrAddr,
     info.configTable, info.bootLoaderName, info.apmTable,
     info.vbeControlInfo, info.vbeModeInfo]
  }

  /** The 16-bit fields at header offsets 80 to 91. */
  function HalfFields(info: Info): (hs: seq<Uint16>)
  {
    [info.vbeMode, info.vbeInterfaceSeg, info.vbeInterfaceOff, info.vbeInterfaceLen,
     info.framebufferAddr, info.framebufferPitch]
  }

  /** The framebuffer size fields at header offsets 92 to 99. */
  function FramebufferSize(info: Info): (ws: seq<Uint32>)
  {
    [info.framebufferWidth, info.framebufferHeight]
  }

  /** Consecutive 32-bit fields, 4 bytes each. */
  function Words(ws: seq<Uint32>, order: ByteOrder): (r: seq<byte>)
    ensures |r| == 4 * |ws|
  {
    if ws == [] then [] else U32(ws[0], order) + Words(ws[1..], order)
  }

  /** Consecutive 16-bit fields, 2 bytes each. */
  function Halves(hs: seq<Uint16>, order: ByteOrder): (r: seq<byte>)
    ensures |r| == 2 * |hs|
  {
    if hs == [] then [] else U16(hs[0], order) + Halves(hs[1..], order)
  }

  /** The header in the given byte order: every field in declaration order,
      each at its own width, with no padding between them, as `binary.Write`
      emits a struct of fixed-size fields. */
  function Serialize(info: Info, order: ByteOrder): (r: seq<byte>)
    ensures |r| == SizeofInfo
  {
    Words(WordFields(info), order)
    + (Halves(HalfFields(info), order)
    + (Words(FramebufferSize(info), order)
    + ([info.framebufferBPP, info.framebufferType] + info.colorInfo)))
  }

  function Read32(bs: seq<byte>, offset: nat, order: ByteOrder): Uint32
    requires offset + 4 <= |bs|
  {
    Pow256Widths();
    DecodeUint(bs[offset..offset + 4], order)
  }

  function Read16(bs: seq<byte>, offset: nat, order: ByteOrder): Uint16
    requires offset + 2 <= |bs|
  {
    Pow256Widths();
    DecodeUint(bs[offset..offset + 2], order)
  }

  /** The header a kernel of the same byte order reads from bs, each field
      at its fixed byte offset. */
  function Parse(bs: seq<byte>, order: ByteOrder): Info
    requires |bs| == SizeofInfo
  {
    Info(
      Read32(bs, 0, order), Read32(bs, 4, order), Read32(bs, 8, order),
      Read32(bs, 12, order), Read32(bs, 16, order),
      Read32(bs, 20, order), Read32(bs, 24, order),
      [Read32(bs, 28, order), Read32(bs, 32, order), Read32(bs, 36, order), Read32(bs, 40, order)],
      Read32(bs, 44, order), Read32(bs, 48, order),
      Read32(bs, 52, order), Read32(bs, 56, order),
      Read32(bs, 60, order), Read32(bs, 64, order),
      Read32(bs, 68, order),
      Read32(bs, 72, order), Read32(bs, 76, order),
      Read16(bs, 80, order), Read16(bs, 82, order),
      Read16(bs, 84, order), Read16(bs, 86, order),
      Read16(bs, 88, order), Read16(bs, 90, order),
      Read32(bs, 92, order), Read32(bs, 96, order),
      bs[100], bs[101],
      bs[102..108])
  }

  /** A 32-bit field inside the first part of a concatenation. */
  lemma Read32Prefix(a: seq<byte>, b: seq<byte>, offset: nat, order: ByteOrder)
    requires offset + 4 <= |a|
    ensures Read32(a + b, offset, order) == Read32(a, offset, order)
  {
    assert (a + b)[offset..offset + 4] == a[offset..offset + 4];
  }

  /** A 32-bit field inside the second part of a concatenation. */
  lemma Read32Suffix(a: seq<byte>, b: seq<byte>, offset: nat, order: ByteOrder)
    requires offset + 4 <= |b|
    ensures Read32(a + b, |a| + offset, order) == Read32(b, offset, order)
  {
    assert (a + b)[|a| + offset..|a| + offset + 4] == b[offset..offset + 4];
  }

  /** A 16-bit field inside the first part of a concatenation. */
  lemma Read16Prefix(a: seq<byte>, b: seq<byte>, offset: nat, order: ByteOrder)
    requires offset + 2 <= |a|
    ensures Read16(a + b, offset, order) == Read16(a, offset, order)
  {
    assert (a + b)[offset..offset + 2] == a[offset..offset + 2];
  }

  /** A 16-bit field inside the second part of a concatenation. */
  lemma Read16Suffix(a: seq<byte>, b: seq<byte>, offset: nat, order: ByteOrder)
    requires offset + 2 <= |b|
    ensures Read16(a + b, |a| + offset, order) == Read16(b, offset, order)
  {
    assert (a + b)[|a| + offset..|a| + offset + 2] == b[offset..offset + 2];
  }

  /** The k-th of consecutive 32-bit fields reads back at offset 4k. */
  lemma {:induction false} WordsAt(ws: seq<Uint32>, k: nat, order: ByteOrder)
    requires k < |ws|
    ensures Read32(Words(ws, order), 4 * k, order) == ws[k]
  {
    var first := U32(ws[0], order);
    if k == 0 {
      Read32Prefix(first, Words(ws[1..], order), 0, order);
      assert first[0..4] == first;
      DecodeEncodeUint(ws[0], 4, order);
    } else {
      Read32Suffix(first, Words(ws[1..], order), 4 * (k - 1), order);
      WordsAt(ws[1..], k - 1, order);
    }
  }

  /** The k-th of consecutive 16-bit fields reads back at offset 2k. */
  lemma {:induction false} HalvesAt(hs: seq<Uint16>, k: nat, order: ByteOrder)
    requires k < |hs|
    ensures Read16(Halves(hs, order), 2 * k, order) == hs[k]
  {
    var first := U16(hs[0], order);
    if k == 0 {
      Read16Prefix(first, Halves(hs[1..], order), 0, order);
      assert first[0..2] == first;
      DecodeEncodeUint(hs[0], 2, order);
    } else {
      Read16Suffix(first, Halves(hs[1..], order), 2 * (k - 1), order);
      HalvesAt(hs[1..], k - 1, order);
    }
  }

  /** The 32-bit fields of WordFields lie at offsets 0, 4, ..., 76. */
  lemma SerializeWords(info: Info, order: ByteOrder)
    ensures |Serialize(info, order)| == SizeofInfo
    ensures forall offset | 0 <= offset < 80 && offset % 4 == 0 ::
      Read32(Serialize(info, order), offset, order) == WordFields(info)[offset / 4]
  {
    var w := Words(WordFields(info), order);
    var rest := Halves(HalfFields(info), order) + (Words(FramebufferSize(info), order)
                + ([info.framebufferBPP, info.framebufferType] + info.colorInfo));
    forall offset | 0 <= offset < 80 && offset % 4 == 0
      ensures Read32(w + rest, offset, order) == WordFields(info)[offset / 4]
    {
      var k := offset / 4;
      assert offset == 4 * k;
      WordsAt(WordFields(info), k, order);
      Read32Prefix(w, rest, 4 * k, order);
    }
  }

  /** The 16-bit fields of HalfFields lie at offsets 80, 82, ..., 90. */
  lemma SerializeHalves(info: Info, order: ByteOrder)
    ensures |Serialize(info, order)| == SizeofInfo
    ensures forall offset | 80 <= offset < 92 && offset % 2 == 0 ::
      Read16(Serialize(info, order), offset, order) == HalfFields(info)[(offset - 80) / 2]
  {
    var w := Words(WordFields(info), order);
    var h := Halves(HalfFields(info), order);
    var rest := Words(FramebufferSize(info), order)
                + ([info.framebufferBPP, info.framebufferType] + info.colorInfo);
    forall offset | 80 <= offset < 92 && offset % 2 == 0
      ensures Read16(w + (h + rest), offset, order) == HalfFields(info)[(offset - 80) / 2]
    {
      var k := (offset - 80) / 2;
      assert offset == 80 + 2 * k;
      HalvesAt(HalfFields(info), k, order);
      Read16Prefix(h, rest, 2 * k, order);
      Read16Suffix(w, h + rest, 2 * k, order);
    }
  }

  /** The framebuffer width and height lie at offsets 92 and 96, and the
      single bytes after them at 100 to 107. */
  lemma SerializeFramebuffer(info: Info, order: ByteOrder)
    ensures |Serialize(info, order)| == SizeofInfo
    ensures forall offset | 92 <= offset < 100 && offset % 4 == 0 ::
      Read32(Serialize(info, order), offset, order) == FramebufferSize(info)[(offset - 92) / 4]
    ensures Serialize(info, order)[100] == info.framebufferBPP
    ensures Serialize(info, order)[101] == info.framebufferType
    ensures Serialize(info, order)[102..108] == info.colorInfo
  {
    var w := Words(WordFields(info), order);
    var h := Halves(HalfFields(info), order);
    var f := Words(FramebufferSize(info), order);
    var t := [info.framebufferBPP, info.framebufferType] + info.colorInfo;
    forall offset | 92 <= offset < 100 && offset % 4 == 0
      ensures Read32(w + (h + (f + t)), offset, order) == FramebufferSize(info)[(offset - 92) / 4]
    {
      var k := (offset - 92) / 4;
      assert offset == 92 + 4 * k;
      WordsAt(FramebufferSize(info), k, order);
      Read32Prefix(f, t, 4 * k, order);
      Read32Suffix(h, f + t, 4 * k, order);
      Read32Suffix(w, h + (f + t), 12 + 4 * k, order);
    }
    var s := w + (h + (f + t));
    assert s[100..] == t by {
      assert s[80..] == h + (f + t);
      assert s[92..] == f + t;
    }
  }

  /** Parse undoes Serialize: every field, not only the two pointers, comes
      back exactly as it was written, in either byte order. */
  lemma ParseSerialize(info: Info, order: ByteOrder)
    ensures |Serialize(info, order)| == SizeofInfo
    ensures Parse(Serialize(info, order), order) == info
  {
    SerializeWords(info, order);
    SerializeHalves(info, order);
    SerializeFramebuffer(info, order);
  }
}
