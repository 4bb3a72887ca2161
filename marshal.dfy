/** `infoWrapper.marshal` and `infoWrapper.size` of pkg/multiboot/info.go:
    the boot information block a Multiboot kernel finds at physical address
    `base` is the header, then the command line and the bootloader name,
    each followed by one NUL byte, then zero bytes up to a multiple of 4. */
module Marshal {
  import opened Bytes
  import opened MultibootInfo

  /** Go's `uint32(x)` conversion of a non-negative value: its low 32 bits. */
  function Trunc32(x: nat): (r: Uint32)
    ensures x < 0x1_0000_0000 ==> r == x
  {
    x % 0x1_0000_0000
  }

  /** The address the header's CmdLine field holds: the command line starts
      right after the header, at sizeofInfo + uint32(base) in 32-bit
      arithmetic. */
  function CmdLinePointer(base: nat): (p: Uint32)
    ensures (p - base % 0x1_0000_0000) % 0x1_0000_0000 == SizeofInfo
  {
    ModDiff(SizeofInfo + Trunc32(base), Trunc32(base), SizeofInfo);
    Trunc32(SizeofInfo + Trunc32(base))
  }

  /** The address the header's BootLoaderName field holds: one past the
      command line's terminating NUL, again in 32-bit arithmetic. */
  function BootLoaderNamePointer(base: nat, cmdLine: seq<byte>): (p: Uint32)
    ensures p == (CmdLinePointer(base) + |cmdLine| + 1) % 0x1_0000_0000
    ensures (p - base % 0x1_0000_0000) % 0x1_0000_0000
            == (SizeofInfo + |cmdLine| + 1) % 0x1_0000_0000
  {
    var c := CmdLinePointer(base);
    TruncAdd(c + 1, |cmdLine|);
    ModDiff(c + |cmdLine| + 1, Trunc32(base), SizeofInfo + |cmdLine| + 1);
    Trunc32(c + Trunc32(|cmdLine|) + 1)
  }

  /** The number of bytes in all the strings together. */
  function TotalLength(strings: seq<seq<byte>>): nat
  {
    if strings == [] then 0
    else TotalLength(strings[..|strings| - 1]) + |strings[|strings| - 1]|
  }

  /** Each string followed by one NUL byte, in the given order. */
  function Terminated(strings: seq<seq<byte>>): (r: seq<byte>)
    ensures |r| == TotalLength(strings) + |strings|
  {
    if strings == [] then []
    else Terminated(strings[..|strings| - 1]) + strings[|strings| - 1] + [0]
  }

  /** `(n + 3) &^ 3`: clearing the two low bits of n + 3, which for a
      non-negative n is the least multiple of 4 that is at least n. */
  function RoundUp4(n: nat): (r: nat)
    ensures r % 4 == 0 && n <= r < n + 4
  {
    (n + 3) - (n + 3) % 4
  }

  /** `bytes.Repeat([]byte{0}, n)`. */
  function Zeros(n: nat): (r: seq<byte>)
    ensures |r| == n && forall i :: 0 <= i < n ==> r[i] == 0
  {
    seq(n, _ => 0)
  }

  /** The header as marshal serializes it: the caller's Info with the two
      string pointers filled in. */
  function WithPointers(info: Info, base: nat, cmdLine: seq<byte>): (h: Info)
    ensures h.cmdLine == CmdLinePointer(base)
    ensures h.bootLoaderName == BootLoaderNamePointer(base, cmdLine)
    ensures h.(cmdLine := info.cmdLine, bootLoaderName := info.bootLoaderName) == info
  {
    info.(cmdLine := CmdLinePointer(base), bootLoaderName := BootLoaderNamePointer(base, cmdLine))
  }

  /** The block marshal returns for a wrapper holding info, cmdLine and
      bootLoaderName, to be placed at `base`, in the given byte order. */
  function Marshalled(info: Info, cmdLine: seq<byte>, bootLoaderName: seq<byte>,
                      base: nat, order: ByteOrder): (m: seq<byte>)
    ensures var n := SizeofInfo + |cmdLine| + 1 + |bootLoaderName| + 1;
      |m| % 4 == 0 && n <= |m| < n + 4
  {
    TerminatedPair(cmdLine, bootLoaderName);
    var unpadded := Serialize(WithPointers(info, base, cmdLine), order)
                    + Terminated([cmdLine, bootLoaderName]);
    unpadded + Zeros(RoundUp4(|unpadded|) - |unpadded|)
  }

  lemma TerminatedPair(cmdLine: seq<byte>, bootLoaderName: seq<byte>)
    ensures Terminated([cmdLine, bootLoaderName]) == cmdLine + [0] + bootLoaderName + [0]
  {
    var ss := [cmdLine, bootLoaderName];
    assert ss[..1] == [cmdLine];
    assert Terminated([cmdLine]) == cmdLine + [0] by {
      assert [cmdLine][..0] == [];
    }
  }

  /** The block is the header, then the two NUL-terminated strings, then
      fewer than four zero bytes. */
  lemma MarshalledParts(info: Info, cmdLine: seq<byte>, bootLoaderName: seq<byte>,
                        base: nat, order: ByteOrder)
    ensures var m := Marshalled(info, cmdLine, bootLoaderName, base, order);
      var n := SizeofInfo + |cmdLine| + 1 + |bootLoaderName| + 1;
      && |m| == RoundUp4(n)
      && m == Serialize(WithPointers(info, base, cmdLine), order)
              + (cmdLine + [0] + bootLoaderName + [0] + Zeros(|m| - n))
  {
    TerminatedPair(cmdLine, bootLoaderName);
  }

  /** The length: the unpadded length rounded up to a multiple of 4, which
      adds at most 3 bytes, and which does not depend on base. */
  lemma MarshalledLength(info: Info, cmdLine: seq<byte>, bootLoaderName: seq<byte>,
                         base: nat, order: ByteOrder)
    ensures var m := Marshalled(info, cmdLine, bootLoaderName, base, order);
      var n := SizeofInfo + |cmdLine| + 1 + |bootLoaderName| + 1;
      && |m| == RoundUp4(n)
      && |m| % 4 == 0
      && n <= |m| <= n + 3
  {
    MarshalledParts(info, cmdLine, bootLoaderName, base, order);
  }

  /** The first 108 bytes are the caller's header with only CmdLine and
      BootLoaderName replaced: every other field reads back as supplied. */
  lemma MarshalledHeader(info: Info, cmdLine: seq<byte>, bootLoaderName: seq<byte>,
                         base: nat, order: ByteOrder)
    ensures var m := Marshalled(info, cmdLine, bootLoaderName, base, order);
      && SizeofInfo <= |m|
      && m[..SizeofInfo] == Serialize(WithPointers(info, base, cmdLine), order)
      && Parse(m[..SizeofInfo], order)
         == info.(cmdLine := CmdLinePointer(base), bootLoaderName := BootLoaderNamePointer(base, cmdLine))
  {
    var header := WithPointers(info, base, cmdLine);
    MarshalledParts(info, cmdLine, bootLoaderName, base, order);
    ParseSerialize(header, order);
  }

  lemma TruncAdd(a: nat, b: nat)
    ensures Trunc32(a + Trunc32(b)) == Trunc32(a + b)
  {
  }

  /** The pointer fields hold the addresses marshal computed. */
  lemma MarshalledPointerFields(info: Info, cmdLine: seq<byte>, bootLoaderName: seq<byte>,
                                base: nat, order: ByteOrder)
    ensures var m := Marshalled(info, cmdLine, bootLoaderName, base, order);
      && SizeofInfo <= |m|
      && Read32(m, CmdLineOffset, order) == CmdLinePointer(base)
      && Read32(m, BootLoaderNameOffset, order) == BootLoaderNamePointer(base, cmdLine)
  {
    var header := WithPointers(info, base, cmdLine);
    var h := Serialize(header, order);
    var n := SizeofInfo + |cmdLine| + 1 + |bootLoaderName| + 1;
    var m := Marshalled(info, cmdLine, bootLoaderName, base, order);
    MarshalledParts(info, cmdLine, bootLoaderName, base, order);
    var rest := cmdLine + [0] + bootLoaderName + [0] + Zeros(|m| - n);
    SerializeWords(header, order);
    assert Read32(h, CmdLineOffset, order) == WordFields(header)[4];
    assert Read32(h, BootLoaderNameOffset, order) == WordFields(header)[16];
    Read32Prefix(h, rest, CmdLineOffset, order);
    Read32Prefix(h, rest, BootLoaderNameOffset, order);
  }

  /** The pointer fields as the kernel reads them at offsets 16 and 64:
      CmdLine is 108 + uint32(base), and BootLoaderName is CmdLine plus the
      command line's length plus one, both wrapping at 2^32. */
  lemma MarshalledPointers(info: Info, cmdLine: seq<byte>, bootLoaderName: seq<byte>,
                           base: nat, order: ByteOrder)
    ensures var m := Marshalled(info, cmdLine, bootLoaderName, base, order);
      && SizeofInfo <= |m|
      && Read32(m, CmdLineOffset, order) == (SizeofInfo + base % 0x1_0000_0000) % 0x1_0000_0000
      && Read32(m, BootLoaderNameOffset, order)
         == (Read32(m, CmdLineOffset, order) + |cmdLine| + 1) % 0x1_0000_0000
  {
    MarshalledPointerFields(info, cmdLine, bootLoaderName, base, order);
    TruncAdd(CmdLinePointer(base) + 1, |cmdLine|);
  }

  /** Subtracting uint32(base) from a pointer in 32-bit arithmetic gives
      the offset of its string in the block: 108 for the command line, one
      past the command line's NUL for the bootloader name. */
  lemma MarshalledOffsets(info: Info, cmdLine: seq<byte>, bootLoaderName: seq<byte>,
                          base: nat, order: ByteOrder)
    ensures var m := Marshalled(info, cmdLine, bootLoaderName, base, order);
      && SizeofInfo <= |m|
      && (Read32(m, CmdLineOffset, order) - base % 0x1_0000_0000) % 0x1_0000_0000
         == SizeofInfo
      && (Read32(m, BootLoaderNameOffset, order) - base % 0x1_0000_0000) % 0x1_0000_0000
         == (SizeofInfo + |cmdLine| + 1) % 0x1_0000_0000
  {
    MarshalledPointerFields(info, cmdLine, bootLoaderName, base, order);
  }

  /** (x mod 2^32 - y) mod 2^32 == d mod 2^32 whenever x == y + d. */
  lemma ModDiff(x: nat, y: nat, d: nat)
    requires (x - y) % 0x1_0000_0000 == d % 0x1_0000_0000
    ensures (x % 0x1_0000_0000 - y) % 0x1_0000_0000 == d % 0x1_0000_0000
  {
  }

  /** The strings sit at their fixed places: the command line at offset
      108 and the bootloader name right after the command line's NUL, each
      followed by one zero byte. */
  lemma MarshalledStrings(info: Info, cmdLine: seq<byte>, bootLoaderName: seq<byte>,
                          base: nat, order: ByteOrder)
    ensures var m := Marshalled(info, cmdLine, bootLoaderName, base, order);
      var c, b := |cmdLine|, |bootLoaderName|;
      && SizeofInfo + c + 1 + b + 1 <= |m|
      && m[SizeofInfo..SizeofInfo + c] == cmdLine
      && m[SizeofInfo + c] == 0
      && m[SizeofInfo + c + 1..SizeofInfo + c + 1 + b] == bootLoaderName
      && m[SizeofInfo + c + 1 + b] == 0
  {
    var m := Marshalled(info, cmdLine, bootLoaderName, base, order);
    var h := Serialize(WithPointers(info, base, cmdLine), order);
    var c, b := |cmdLine|, |bootLoaderName|;
    MarshalledParts(info, cmdLine, bootLoaderName, base, order);
    var rest := cmdLine + [0] + bootLoaderName + [0] + Zeros(|m| - (SizeofInfo + c + 1 + b + 1));
    assert m[SizeofInfo..] == rest;
    assert rest[..c] == cmdLine;
    assert rest[c + 1..c + 1 + b] == bootLoaderName;
  }

  /** Everything after the bootloader name's NUL is zero padding. */
  lemma MarshalledPadding(info: Info, cmdLine: seq<byte>, bootLoaderName: seq<byte>,
                          base: nat, order: ByteOrder)
    ensures var m := Marshalled(info, cmdLine, bootLoaderName, base, order);
      forall i :: SizeofInfo + |cmdLine| + 1 + |bootLoaderName| + 1 <= i < |m| ==> m[i] == 0
  {
    MarshalledParts(info, cmdLine, bootLoaderName, base, order);
  }

  /** A block loaded at 1 MiB with a 13-byte command line such as
      `console=ttyS0` and a 6-byte bootloader name such as `u-boot`: the
      command line is at 0x10006C, the name 14 bytes later at 0x10007A, and
      the 129 bytes are padded to 132. */
  lemma ExampleLayout(info: Info, cmdLine: seq<byte>, bootLoaderName: seq<byte>, order: ByteOrder)
    requires |cmdLine| == 13 && |bootLoaderName| == 6
    ensures var m := Marshalled(info, cmdLine, bootLoaderName, 0x10_0000, order);
      && |m| == 132
      && Read32(m, CmdLineOffset, order) == 0x10_006C
      && Read32(m, BootLoaderNameOffset, order) == 0x10_007A
  {
    MarshalledLength(info, cmdLine, bootLoaderName, 0x10_0000, order);
    MarshalledPointers(info, cmdLine, bootLoaderName, 0x10_0000, order);
  }

  /** The block does not depend on the pointer values the header held
      before: marshal overwrites both, so marshalling a wrapper a second time
      at the same base yields the same bytes. */
  lemma MarshalledIgnoresPointers(info: Info, cmdLine: seq<byte>, bootLoaderName: seq<byte>,
                                  base: nat, order: ByteOrder, p: Uint32, q: Uint32)
    ensures Marshalled(info.(cmdLine := p, bootLoaderName := q), cmdLine, bootLoaderName, base, order)
            == Marshalled(info, cmdLine, bootLoaderName, base, order)
  {
  }

  /** The state `marshal` reads and updates: the embedded header and the
      two strings that follow it. */
  class InfoWrapper {
    var info: Info
    var cmdLine: seq<byte>
    var bootLoaderName: seq<byte>

    constructor (info: Info, cmdLine: seq<byte>, bootLoaderName: seq<byte>)
      ensures this.info == info
      ensures this.cmdLine == cmdLine && this.bootLoaderName == bootLoaderName
    {
      this.info := info;
      this.cmdLine := cmdLine;
      this.bootLoaderName := bootLoaderName;
    }

    /** Fills in the two pointer fields for a block placed at `base`, then
        writes the header, the NUL-terminated strings and the padding. */
    method Marshal(base: nat, order: ByteOrder) returns (buf: seq<byte>)
      modifies this`info
      ensures info == old(info).(cmdLine := CmdLinePointer(base),
                                 bootLoaderName := BootLoaderNamePointer(base, cmdLine))
      ensures buf == Marshalled(old(info), cmdLine, bootLoaderName, base, order)
      ensures buf == Marshalled(info, cmdLine, bootLoaderName, base, order)
    {
      var offset := Trunc32(SizeofInfo + Trunc32(base));
      info := info.(cmdLine := offset);
      offset := Trunc32(offset + Trunc32(|cmdLine|) + 1);
      info := info.(bootLoaderName := offset);

      buf := Serialize(info, order);

      var strings := [cmdLine, bootLoaderName];
      for k := 0 to |strings|
        invariant buf == Serialize(info, order) + Terminated(strings[..k])
      {
        assert strings[..k + 1][..k] == strings[..k];
        buf := buf + strings[k];
        buf := buf + [0];
      }
      assert strings[..|strings|] == strings;

      var size := RoundUp4(|buf|);
      buf := buf + Zeros(size - |buf|);
      MarshalledIgnoresPointers(old(info), cmdLine, bootLoaderName, base, order,
                                info.cmdLine, info.bootLoaderName);
    }

    /** The length of the block `marshal` would return, computed as the
        source does, by marshalling a copy at base 0: the wrapper itself is
        left as it was. */
    method Size(order: ByteOrder) returns (n: nat)
      ensures n == RoundUp4(SizeofInfo + |cmdLine| + 1 + |bootLoaderName| + 1)
      ensures forall base: nat :: n == |Marshalled(info, cmdLine, bootLoaderName, base, order)|
    {
      var copy := new InfoWrapper(info, cmdLine, bootLoaderName);
      var b := copy.Marshal(0, order);
      n := |b|;
      MarshalledLength(info, cmdLine, bootLoaderName, 0, order);
      forall base: nat
        ensures n == |Marshalled(info, cmdLine, bootLoaderName, base, order)|
      {
        MarshalledLength(info, cmdLine, bootLoaderName, base, order);
      }
    }
  }
}
