# CRC-protected AVR flash image, modelled in Dafny

The firmware protects its program image with one CRC-16. Two programs must agree on it byte for byte.

- The build-host generator `gen-crc` reads three binaries extracted from the linked program: `text.bin`, `data.bin` and `rodata.bin`. It folds them through the CRC-16/ARC update in a fixed order and prints the result. It leaves out the two bytes of the `crc_value` slot inside the text image. The value it prints is then written into that slot.
- At boot, the device recomputes the CRC over live flash with `get_flash_crc`. It walks the regions the linker symbols describe:
  - region 1 is `[__vectors, crc_value-1]`;
  - region 2 is `[crc_value+2, __data_load_end-1]`;
  - region 3, present only when there is a rodata memory region, is `[__rodata_load_start, __rodata_load_end-1]`.
- `read_crc_value` reads the stored value back. `main` aborts when the two differ.

The project has four modules:

- `Crc16` (Crc16.dfy) holds the kernel:
  - `Update` is the byte-wise update and `Fold` folds a sequence of bytes through it.
  - `Crc16Update` is the 8-round loop as the C code runs it.
  - `ArcUpdate` is an independent bit-serial CRC-16/ARC register, and the update is proved equal to it.
  - It holds the check value and the fold laws.
  - It also proves injectivity facts, which show that a single changed byte always changes the CRC.
- `GenCrc` (GenCrc.dfy) models the host generator:
  - `CrcUpdateFromFile` is the read loop, with the skip window computed in 32-bit `addr_t`.
  - `Kept` gives the bytes that loop folds.
  - `GenerateCrc` is the fold order of `main`, and `HostCrc` / `HostStream` state what it computes.
- `CrcFlash` (CrcFlash.dfy) models the device:
  - Flash is a `seq<bv8>` indexed by address, and the linker symbols are a `Symbols` value.
  - The preprocessor test for a rodata region is the flag `hasRodataRegion`.
  - `Plan` lists the regions `get_flash_crc` folds.
  - `CrcUpdateFromFlash` and `GetFlashCrc` are the loop and the traversal, each proved against `Fold` over the plan's bytes.
  - `ReadCrcValue` is `read_crc_value`, and `BootAccepts` is the check in `main.c`.
- `Agreement` (Agreement.dfy) relates the two sides:
  - On a flash image laid out from the three binaries, the device computes what the host prints.
  - With that value written into the slot, the boot check passes.
  - Afterwards, a change to any covered byte makes the check fail.

## Model

| member | source | states |
|---|---|---|
| Crc16.Update | gen-crc.c:34-47 | defines `_crc16_update`: the byte XORed into the low 8 bits of the accumulator, then 8 rounds of `Step` (shift right by one, XOR 0xA001 when the bit shifted out was 1) |
| Crc16.Fold | gen-crc.c:100-109 | defines the CRC of a byte sequence from a given accumulator: the bytes fed to `Update` one after another, in sequence order |
| Crc16.Crc16Update | gen-crc.c:34-47 | the loop (XOR the byte into the low 8 bits, then 8 rounds of shift right by one, XOR 0xA001 when the bit shifted out was 1) returns `Update(crc, a)` |
| Crc16.StepCases | gen-crc.c:40-43 | one round is `(crc >> 1) ^ 0xA001` when the low bit is 1 and `crc >> 1` when it is 0 |
| Crc16.UpdateIsArc | gen-crc.c:31-47 | for every accumulator and byte, the update equals the reflected CRC-16/ARC shift register fed the byte's bits least significant first |
| Crc16.RoundsMatchSerial | gen-crc.c:37-44 | n rounds on the pre-XORed accumulator equal n clocks of the bit-serial register, XOR the data bits not yet consumed |
| Crc16.CheckValue | gen-crc.c:34-47 | from the initial value 0, ASCII "123456789" folds to the CRC-16/ARC check value 0xBB3D |
| Crc16.FoldEmpty | gen-crc.c:100 | the empty input leaves the accumulator unchanged; from the initial value 0 it yields 0x0000 |
| Crc16.FoldAppend | gen-crc.c:100-109 | folding `a + b` equals folding `b` from the result of folding `a`, which lets `crc` be threaded through the successive calls |
| Crc16.UpdateInjectiveInCrc | gen-crc.c:34-47 | distinct accumulators stay distinct after the same byte |
| Crc16.UpdateInjectiveInByte | gen-crc.c:34-47 | from the same accumulator, distinct bytes give distinct results |
| Crc16.FoldInjectiveInCrc | gen-crc.c:34-47 | distinct accumulators stay distinct after the same byte sequence |
| Crc16.SingleByteChangeDetected | gen-crc.c:34-47 | changing any single byte of a folded sequence changes its CRC |
| GenCrc.Kept | gen-crc.c:57-64 | defines the bytes `crc_update_from_file` folds: byte number n is kept when `n < skip_start` or `n >= skip_start + skip_len`, the sum taken in 32-bit `addr_t`; file order is kept |
| GenCrc.HostStream | gen-crc.c:100-109 | defines the bytes main folds: the kept text bytes, rodata when `rodata_start == 0`, data, rodata when `rodata_start > 0` |
| GenCrc.HostCrc | gen-crc.c:96-111 | defines the CRC the generator prints: `HostStream` with the text window at `crc_loc`, folded from 0 |
| GenCrc.CrcUpdateFromFile | gen-crc.c:53-65 | the read loop folds exactly the bytes `Kept` selects, in file order, and returns at end of stream without folding the EOF value |
| GenCrc.KeptWindow | gen-crc.c:62 | without wrap-around, the folded bytes are those before `skip_start` followed by those from `skip_start + skip_len` on, each clipped to the file |
| GenCrc.KeptBeforeWindow | gen-crc.c:62 | a file that ends before the window is folded whole |
| GenCrc.KeptInWindow | gen-crc.c:62 | a file that ends inside the window folds only the bytes before it |
| GenCrc.KeptAfterWindow | gen-crc.c:62 | a file that runs past the window folds both sides of it, in order |
| GenCrc.KeptNoSkip | gen-crc.c:104-109 | with `skip_len` 0 the whole file is folded |
| GenCrc.KeptWrapped | gen-crc.c:55-62 | when `skip_start + skip_len` wraps in 32-bit `addr_t`, the window end falls below its start and nothing is skipped |
| GenCrc.KeptIgnoresWindow | gen-crc.c:62 | two files that agree outside the window fold the same bytes, whatever the window holds |
| GenCrc.CrcLoc | gen-crc.c:96-98 | `crc_loc` added to `text_start` gives `crc_address` modulo 2^32, and gives it exactly, with no wrap, when `text_start <= crc_address` |
| GenCrc.GenerateCrc | gen-crc.c:96-109 | main's chain of calls returns the fold from 0 of text without the slot, rodata when `rodata_start == 0`, data, and rodata when `rodata_start > 0` |
| GenCrc.RodataFoldedOnce | gen-crc.c:103-109 | rodata is folded before data when `rodata_start` is 0 and after it otherwise; the stream holds every byte of the kept text, data and rodata exactly once |
| GenCrc.TextWindowIsSlot | gen-crc.c:98-101 | the text skip window is exactly the `sizeof(crc_t)` = 2 bytes at offset `crc_address - text_start`; the rest of the text image is folded in order |
| GenCrc.TenByteText | gen-crc.c:98-101 | for a 10-byte text with the slot at offset 4, bytes 0 to 3 and 6 to 9 are folded, 8 in all |
| GenCrc.HostIgnoresSlot | gen-crc.c:98-101 | whatever the slot bytes of `text.bin` hold, the printed CRC is the same |
| CrcFlash.Plan | crc-flash.c:93-121 | defines the regions get_flash_crc folds, in order: `[__vectors, crc_value-1]`, then `DataPart`, then `RodataPart` |
| CrcFlash.DataPart | crc-flash.c:98-101 | defines region 2: `[crc_value+2, __data_load_end-1]` when `start2 != end2`, no region otherwise |
| CrcFlash.RodataPart | crc-flash.c:112-118 | defines region 3: `[__rodata_load_start, __rodata_load_end-1]` when there is a rodata region and `start3 != end3`, no region otherwise |
| CrcFlash.DeviceCrc | crc-flash.c:91-124 | defines the CRC get_flash_crc returns: the bytes of the plan's regions, region after region, folded from 0 |
| CrcFlash.BootAccepts | main.c:16-23 | defines the boot check: main carries on exactly when the CRC over flash equals what read_crc_value returns, and calls abort otherwise |
| CrcFlash.CrcUpdateFromFlash | crc-flash.c:67-78 | the loop with its stop test after the fold returns the fold of `flash[start..end]` inclusive, in increasing address order (`end - start + 1` bytes) |
| CrcFlash.GetFlashCrc | crc-flash.c:91-124 | the traversal starts from 0 and returns the fold of the plan's bytes, `DeviceCrc` |
| CrcFlash.PlanShape | crc-flash.c:93-121 | region 1 is `[__vectors, crc_value-1]` and comes first; region 2 is present exactly when `crc_value + 2 != __data_load_end`; a non-empty rodata region comes last; no region is empty; the plan covers exactly the protected addresses and, with rodata apart from the image, never the slot |
| CrcFlash.DeviceCrcByRegion | crc-flash.c:93-118 | the device CRC is region 1, then region 2, then region 3, threaded through one accumulator |
| CrcFlash.PlanStream | crc-flash.c:91-124 | the plan reads the image without the slot, then the rodata region |
| CrcFlash.PlanDisjoint | crc-flash.c:91-124 | with rodata apart from the image, no two regions share an address |
| CrcFlash.PlanInFlash | crc-flash.c:91-124 | inside flash, every region is a non-empty range of flash |
| CrcFlash.StreamAgrees | crc-flash.c:67-78 | two flash images that agree at every covered address give the same byte stream |
| CrcFlash.DeviceIgnoresSlot | crc-flash.c:88-101 | with the rodata region apart from the image, the two slot bytes at `crc_value` and `crc_value + 1` never influence `get_flash_crc` |
| CrcFlash.OverlappingRodataReadsSlot | crc-flash.c:112-118 | for one layout with a rodata region laid over the slot, get_flash_crc reads the slot's low byte, and changing that byte changes the CRC |
| CrcFlash.DeviceDetectsByteChange | crc-flash.c:88-124 | changing any one protected byte changes the device CRC |
| CrcFlash.ReadWord | crc-flash.c:43-44 | the 16-bit read is little-endian: its low byte is the byte at the address, its high byte the next one |
| CrcFlash.ReadDword | crc-flash.c:45-46 | the 32-bit read is little-endian: its low half is the word at the address, its high half the word two bytes on |
| CrcFlash.ReadCrcValue | crc-flash.c:41-48 | read_crc_value returns the little-endian word in the slot when `crc_t` is 2 or 4 bytes, and 0 for any other width |
| Agreement.HostMatchesDevice | crc-flash.c:91-124 | on a flash image consistent with the three binaries, `get_flash_crc` equals the CRC the host generator prints, with or without a rodata region |
| Agreement.StreamsAgreeWithRodata | crc-flash.c:112-118 | with a rodata region, the device reads text without the slot, data, then rodata, which is the host's order for `rodata_start > 0` |
| Agreement.StreamsAgreeWithoutRodata | crc-flash.c:108-110 | without one, rodata sits in flash between text and data and is read there, which is the host's order for `rodata_start == 0` |
| Agreement.ImageIsKept | crc-flash.c:94-101 | regions 1 and 2 read exactly the text bytes the host keeps, then what follows text in flash |
| Agreement.ImageIsKeptText | crc-flash.c:94-101 | regions 1 and 2 read the text image with the two slot bytes cut out, then what follows it |
| Agreement.RodataIsImage | crc-flash.c:115-118 | region 3 reads the rodata image |
| Agreement.ReadPatchedSlot | crc-flash.c:41-48 | after a CRC is written little-endian into the slot, read_crc_value returns it, for a 2-byte and a 4-byte read alike |
| Agreement.BootAcceptsPatchedImage | main.c:14-26 | with the host's CRC written into the slot of a consistent image whose rodata region lies apart from the image, the boot check passes and `main` does not abort |
| Agreement.BootRejectsCorruption | main.c:22-23 | once an image passes, changing any protected byte makes `main` abort |
| Agreement.SlotReadUnchanged | crc-flash.c:41-44 | writing outside the slot does not change what read_crc_value returns |

## Left out

- `define_crc_value` (crc-flash.c:26-37) is left out. It only places the slot in a section and has no logic.
- The ELPM / far-address macros and the `pgm_read_*` primitives (crc-flash.c:9-21) are left out. Flash is a byte sequence indexed by unbounded addresses, so banked addressing and address wrap are not modelled.
- The device's `_crc16_update` from AVR-LibC's `<util/crc16.h>` is not part of this model. The device side uses the host kernel, which the host source declares a verbatim copy (gen-crc.c:31-32).
- The AVRtest logging macros and every `printf` (crc-flash.c:80-86, 103-106, 119-120; main.c:7-11, 19-20) are left out. They are diagnostics only.
- Host I/O and process handling are left out. This covers `error`/`exit`, `fopen` failure, `fclose`, the argument count check and the hex print (gen-crc.c:18-28, 70-94, 111-113).
  - `crc_update_from_filename` is represented by its call of `crc_update_from_file` on the file's bytes.
  - `GenerateCrc` takes the three files' contents as parameters and returns the CRC instead of printing it.
- `syms.def` is auto-generated and is not part of this model. `crc_address`, `text_start` and `rodata_start` are parameters.
- The preprocessor test for a rodata region (crc-flash.c:112-113) is the boolean `hasRodataRegion`. `Agreement.Consistent` ties it to `rodata_start > 0`.
- Writing the printed CRC into the flash image belongs to the build and is not in these sources. `Agreement.PatchSlot` models it as a little-endian store of the 2-byte `crc_t`.
- CrcUpdateFromFile: the byte counter `n` is an unbounded number, whereas the source's is a 32-bit `addr_t`. Files of 4 GiB or more, where `n` would wrap, are not modelled.
- GetFlashCrc: requires `crc_value > __vectors`, because region 1 is folded without an emptiness guard. It also requires `crc_value + 2 <= __data_load_end` and, with a rodata region, `__rodata_load_start <= __rodata_load_end`. All three are stated in `Layout`. Otherwise the source's inclusive loop would run from `start` past the top of `addr_t` and wrap round the address space to `end`. The model does not follow that wrap.
- CrcUpdateFromFlash: requires `start <= end < |flash|`, for the same reason.
- ReadCrcValue: `crc_t` is the 16-bit `uint16_t` of crc-flash.h:6. The 4-byte branch is modelled as the 32-bit read truncated to `crc_t`, and the width is a parameter standing for `sizeof(crc_t)`.
- DeviceIgnoresSlot: requires the rodata region to lie apart from the image (`RodataApart`). A rodata region laid over the slot makes region 3 read it (`CrcFlash.OverlappingRodataReadsSlot`).
- BootAcceptsPatchedImage: requires `RodataApart` too, because it rests on DeviceIgnoresSlot.
- DeviceDetectsByteChange: requires `RodataApart`. Without it, a byte could be folded twice, and the single-change argument is not made for that case.
- BootRejectsCorruption: requires `RodataApart`, for the same reason.

## Notes

The code skips exactly `sizeof(crc_t)` = 2 bytes at `crc_loc` (gen-crc.c:62, 101). So a 10-byte text image with the slot at offset 4 folds bytes 0 to 3 and then bytes 6 to 9 (`GenCrc.TenByteText`).
