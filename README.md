# Multiboot v1 boot information block

This project models how u-root's Multiboot loader builds the boot information
block it hands to a Multiboot v1 kernel (`pkg/multiboot/info.go`). The block
has three parts:

- the fixed 108-byte `Info` header, written field by field in the machine's
  byte order;
- the kernel command line and the bootloader name, each followed by one NUL
  byte;
- zero bytes up to the next multiple of 4.

The header's `CmdLine` and `BootLoaderName` fields hold the physical addresses
of the two strings, computed from the address `base` the block is loaded at,
in 32-bit arithmetic.

There are three modules:

- `Bytes` (`bytes.dfy`) holds fixed-width unsigned integers as bytes, in
  little- or big-endian order. Encoding and decoding are proved to be inverse
  bijections.
- `MultibootInfo` (`info.dfy`) holds the `Info` record and its flag constants.
  `Serialize` is the header exactly as `binary.Write` lays it out. `Parse`
  reads every field back from its fixed offset. The lemmas prove that the
  header is 108 bytes long, where each field sits, and
  `Parse(Serialize(info)) == info`.
- `Marshal` (`marshal.dfy`) holds the wrapper class `InfoWrapper`:
  - `InfoWrapper.Marshal` updates the two pointer fields in place and builds
    the block with a loop over the two strings, as `marshal` does.
  - `InfoWrapper.Size` marshals a copy at base 0, as `size` does.
  - The function `Marshalled` specifies the block `Marshal` returns. The lemmas
    about it prove the length and padding, the pointer values, where the
    strings sit, and that the header is the caller's header with only the two
    pointers replaced.

The model follows the code as written:

- The header serializes whatever values the caller stored. The comments that
  call some fields "always zero" are not enforced here.
- `FramebufferAddr` and `FramebufferPitch` are 16-bit fields, as declared in
  the Go record.
- The bootloader name's pointer is the command line's pointer plus the
  command line's length plus one. For `console=ttyS0` (13 bytes) the name
  therefore starts 14 bytes after the command line (`ExampleLayout`).

## Model

| member | source | states |
|---|---|---|
| Bytes.DecodeEncodeUint | pkg/multiboot/info.go:100 | an integer written at a given width in either byte order reads back as the same integer |
| Bytes.EncodeUint | pkg/multiboot/info.go:100 | writing an integer that fits in `width` bytes gives exactly `width` bytes, in the chosen byte order; DecodeEncodeUint and EncodeDecodeUint make it a bijection |
| Bytes.DecodeUint | pkg/multiboot/info.go:100 | reading `n` bytes in the chosen byte order gives an integer below 256^n, the inverse of EncodeUint |
| Bytes.EncodeDecodeUint | pkg/multiboot/info.go:100 | every byte string is the encoding, at its own width, of the integer it decodes to |
| Bytes.EncodeUintInjective | pkg/multiboot/info.go:100 | two integers of one width have the same encoding only if they are equal |
| MultibootInfo.FlagsAreBits | pkg/multiboot/info.go:18-34 | the thirteen capability constants, in declaration order, are 1 << 0 through 1 << 12 |
| MultibootInfo.Serialize | pkg/multiboot/info.go:100 | `binary.Write` of the header is always sizeofInfo = 108 bytes, for any field values and byte order; where each field lands is stated by the next four rows |
| MultibootInfo.SerializeWords | pkg/multiboot/info.go:37-69 | the k-th 32-bit field (Flags through VBEModeInfo, Syms as four words) is found at byte offset 4k, for k < 20 |
| MultibootInfo.SerializeHalves | pkg/multiboot/info.go:70-76 | the six 16-bit fields VBEMode through FramebufferPitch are found at byte offsets 80, 82, …, 90 |
| MultibootInfo.SerializeFramebuffer | pkg/multiboot/info.go:77-81 | FramebufferWidth and FramebufferHeight are at offsets 92 and 96, BPP and Type at bytes 100 and 101, and ColorInfo at bytes 102 to 107 |
| MultibootInfo.ParseSerialize | pkg/multiboot/info.go:100 | reading every field back from the written header gives the original Info, so no two headers serialize alike |
| Marshal.Trunc32 | pkg/multiboot/info.go:94 | Go's `uint32()` of a non-negative value, defined as x mod 2^32; the contract adds that it keeps a value that already fits in 32 bits |
| Marshal.CmdLinePointer | pkg/multiboot/info.go:94-95 | the CmdLine pointer minus uint32(base), in 32-bit arithmetic, is 108: the command line starts right after the header |
| Marshal.BootLoaderNamePointer | pkg/multiboot/info.go:96-97 | the BootLoaderName pointer is (CmdLine + len(CmdLine) + 1) mod 2^32, and minus uint32(base) it is the offset one past the command line's NUL |
| Marshal.WithPointers | pkg/multiboot/info.go:94-97 | the header marshal writes has the two computed pointers and agrees with the caller's Info on every other field |
| Marshal.Terminated | pkg/multiboot/info.go:104-111 | the loop's output holds every string's bytes plus one NUL per string |
| Marshal.RoundUp4 | pkg/multiboot/info.go:113 | (n + 3) &^ 3 is a multiple of 4, at least n and less than n + 4 |
| Marshal.Zeros | pkg/multiboot/info.go:114 | the padding has the requested length and every byte is zero |
| Marshal.TerminatedPair | pkg/multiboot/info.go:104-111 | the loop writes the command line, a NUL, the bootloader name and a NUL, in that order |
| Marshal.Marshalled | pkg/multiboot/info.go:93-116 | the returned block's length is a multiple of 4 and between the unpadded length 108 + len(CmdLine) + 1 + len(BootLoaderName) + 1 and 3 bytes more; its contents are stated by the Marshalled* rows |
| Marshal.MarshalledIgnoresPointers | pkg/multiboot/info.go:94-97 | the block does not depend on the pointer values the header held before the call, since marshal overwrites both |
| Marshal.MarshalledParts | pkg/multiboot/info.go:93-116 | the block is the header with the pointers filled in, then the two NUL-terminated strings, then padding up to RoundUp4 of the unpadded length |
| Marshal.MarshalledLength | pkg/multiboot/info.go:113-114 | the block length is RoundUp4(108 + len(CmdLine) + 1 + len(BootLoaderName) + 1): a multiple of 4, at most 3 bytes over the unpadded length, and independent of base |
| Marshal.MarshalledHeader | pkg/multiboot/info.go:94-100 | the first 108 bytes parse back to the caller's Info with only CmdLine and BootLoaderName replaced by the computed pointers |
| Marshal.MarshalledPointerFields | pkg/multiboot/info.go:94-97 | offsets 16 and 64 of the block hold the CmdLine and BootLoaderName pointers marshal computed |
| Marshal.MarshalledPointers | pkg/multiboot/info.go:94-97 | the CmdLine field is (108 + base mod 2^32) mod 2^32, and the BootLoaderName field is (CmdLine + len(CmdLine) + 1) mod 2^32 |
| Marshal.MarshalledOffsets | pkg/multiboot/info.go:94-111 | subtracting uint32(base) from each pointer in 32-bit arithmetic gives the offset in the block where the string is written |
| Marshal.MarshalledStrings | pkg/multiboot/info.go:104-111 | the command line sits at offset 108 and the bootloader name right after the command line's NUL, each followed by a zero byte |
| Marshal.MarshalledPadding | pkg/multiboot/info.go:113-114 | every byte after the bootloader name's NUL is zero |
| Marshal.ExampleLayout | pkg/multiboot/info.go:93-116 | at base 0x100000 with a 13-byte command line and a 6-byte name, the pointers are 0x10006C and 0x10007A and the block is 132 bytes |
| Marshal.InfoWrapper.Marshal | pkg/multiboot/info.go:93-116 | the receiver's Info gets exactly the two new pointers and nothing else on the receiver changes; the returned bytes are Marshalled of the caller's Info and strings, and equal Marshalled of the updated Info, so marshalling again at the same base gives the same bytes |
| Marshal.InfoWrapper.Size | pkg/multiboot/info.go:118-121 | the result is the length of the block marshal would return at any base, RoundUp4 of the unpadded length; the receiver is left unchanged |

## Left out

- Byte order: `ubinary.NativeEndian` is a parameter of every operation. The model covers both little- and big-endian machines.
- The reflection in `binary.Size` and `binary.Write` is replaced by the explicit field-by-field layout in `Serialize`. sizeofInfo is the constant 108, which the contract of `Serialize` ties to that layout.
- Error results: `bytes.Buffer` writes never fail, so `marshal` and `size` are modelled as total and their `error` results are dropped.
- Integer widths: `base` (a `uintptr`) is an unbounded natural truncated with `uint32()`. The `uint` result of `size` is unbounded.
- Strings are byte sequences. Embedded NUL bytes are not rejected, because the code does not check for them.
- Nothing is required or proved about Flags, or about the fields commented as unsupported. The code writes whatever the caller stored in them.
- Kernel loading, module loading, the memory map and the hand-off to the kernel are not part of this model.
- The value receiver of `size` is modelled by marshalling a freshly allocated copy of the wrapper, so the caller's wrapper is never aliased.
