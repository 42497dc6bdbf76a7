# RISCBoy-180 debug host and device drivers, in Dafny

This project models two parts of RISCBoy-180 and proves properties of them.

The first part is the host side of the chip's debug link, as the cocotb testbench (`cocotb/chip_top_tb.py`) drives it:

- the TWD two-wire debug transport: bit shifting on DCK/DIO, command framing with odd parity, connection, and bus reads and writes through a cached address register;
- the RISC-V Debug Module client built on that transport: hart selection and counting, halt and resume, GPR access through abstract commands, and CSR and memory access through the two-word program buffer and its cache;
- the testbench's expected-capture helpers `rgb555_to_displaydata` and `hdouble`.

The second part is the on-chip software:

- the boot ROM's Adler-32 checksum and its image-selection loop (`software/bootrom/bootrom.c`);
- the register-level drivers for the display controller, the virtual UART, the APU audio output, the Hazard3 interrupt controller and the GPIO/pad controller (`software/include/*.h`).

Modules:

| module | file | models |
|---|---|---|
| `Bits`, `Reg32`, `Wrappers` | `bits.dfy`, `reg32.dfy`, `wrappers.dfy` | shared bit arithmetic on naturals, 32-bit register idioms (`|`, `& ~`, `^`, `1u << k`), Option/Result |
| `TwdFraming` | `twd_framing.dfy` | wire bit order of `twd_shift_out`/`twd_shift_in`, odd parity, command header and write-frame layout |
| `DebugHost` | `debug_host.dfy` | class `Session`: the link as a state machine over the wire, transfer and bus traces, with the address and program-buffer caches |
| `RiscvEncoding` | `riscv_encoding.dfy` | abstract-command words and the RISC-V instructions the client puts in the program buffer |
| `DmClient` | `dm_client.dfy` | the `rvdebug_*` helpers, each proved against the plan of bus accesses it makes |
| `LcdExpect` | `lcd_expect.dfy` | RGB555 to capture-word conversion and horizontal doubling, with their inverses |
| `Bootrom` | `bootrom.dfy` | `checksum_adler32` against the Adler-32 definition of section 2.2 of RFC 1950, and `main`'s sector loop |
| `DispCtrl` | `dispctrl.dfy` | class `DispCtrl`: CSR field updates, `dispctrl_write_cmd`, `dispctrl_init`, and the st7789 table against the testbench's expected capture |
| `VUart` | `vuart.dfy` | class `Port`: `vuart_putc`, `vuart_puts`, `vuart_puthex32` over a log of register accesses |
| `ApuAout` | `aout.dfy` | class `Aout`: start, stop, signedness, blocking sample writes and the two ramps |
| `Irq` | `irq.dfy` | the Hazard3 array-CSR operands and the mstatus/mie enable helpers |
| `Gpio` | `gpio.dfy` | class `Padctrl` (pull-up/pull-down registers) and the GPIO set/clear/xor aliases |

Hardware is modelled as an oracle. A device is a function from the accesses made so far to the value the next status read returns. Each driver logs its accesses, and each operation is proved against a specification function that computes the whole access log of the call. The interesting properties are then proved about those functions:

- pacing: every FIFO write comes right after a read that showed the ready bit;
- what reaches the FIFO and the LCD;
- that nothing else in a register changes;
- round trips, such as decoding what was encoded, or reading back what was sent on the wire.

Busy-waits that the source runs without a bound give up after a `fuel` count of reads. Such a call then reports that it did not return (`done == false`, or the `Hang` error on the host side).

Notes on the testbench's debug client, as the code has it:

- **Opcodes.** The opcode table is fixed (`cocotb/chip_top_tb.py:50-61`): R_STAT 0x4, W_CSR 0x6, R_CSR 0x7, W_ADDR 0x9, W_ADDR_R 0xa, W_DATA 0xc, R_BUFF 0xd. The busy flag is bit 0 of the 4-bit STAT reply.
- **`rvdebug_get_csr`.** It loads `csrr s0, csr` and then `csrw dmdata0, s0`, issues a POSTEXEC-only command, and takes the result from data0 (`:336-338`).
- **Program-buffer cache.** It is reset to `[0, 0]` only in `rvdebug_init` (`:242`); `twd_connect` leaves it alone.
- **Address cache on read.** `twd_read_bus` sets it before it sends the address, so it is set even when the read then fails (`:163`).
- **GPR polls.** `rvdebug_put_gpr` polls without a bound; `rvdebug_get_gpr` uses `rvdebug_wait_acmd_finish`, which gives up after 10 reads.

## Model

| member | source | states |
|---|---|---|
| TwdFraming.OddParity | cocotb/chip_top_tb.py:107-108 | the parity bit makes the total number of ones odd |
| TwdFraming.OutBits | cocotb/chip_top_tb.py:82-87 | `twd_shift_out` drives exactly n bits |
| TwdFraming.NarrowOrder | cocotb/chip_top_tb.py:83-87 | a field narrower than a byte goes out most significant bit first |
| TwdFraming.ByteOrder | cocotb/chip_top_tb.py:85-87 | a whole-byte field goes out byte by byte, least significant byte first, each byte MSB first |
| TwdFraming.BitIdxInvolution | cocotb/chip_top_tb.py:86 | `i ^ 7` is its own inverse and stays within the byte |
| TwdFraming.PlacedBytes | cocotb/chip_top_tb.py:96-98 | after a whole-byte transfer the accumulator holds the sent value's bits |
| TwdFraming.PlacedNarrow | cocotb/chip_top_tb.py:96-104 | after a narrow transfer the accumulator holds the left-justified value |
| TwdFraming.WireRoundTrip | cocotb/chip_top_tb.py:82-105 | `twd_shift_in(n)` returns the v that `twd_shift_out(v, n)` sent, for every width the testbench uses |
| TwdFraming.WholeBytesRoundTrip | cocotb/chip_top_tb.py:93-102 | the round trip for whole-byte widths |
| TwdFraming.NarrowRoundTrip | cocotb/chip_top_tb.py:103-104 | the round trip for widths below 8, through the final shift |
| TwdFraming.HeaderBits | cocotb/chip_top_tb.py:111 | a header is the start bit, the opcode MSB first, then the opcode's odd parity |
| TwdFraming.WriteBodyLayout | cocotb/chip_top_tb.py:122-124 | a write frame is two turnaround zeros, the data (reading back as wdata), its parity and three zeros |
| TwdFraming.TrailerBits | cocotb/chip_top_tb.py:122-124 | the turnaround is `00`; the trailer `parity << 3` on 4 bits is the parity bit then three zeros |
| DebugHost.Session.constructor | cocotb/chip_top_tb.py:126 | a new session has empty traces, no cached address and the progbuf cache `[0, 0]`, so `Valid()` (one cached word per program-buffer slot) holds |
| DebugHost.Session.ShiftOut | cocotb/chip_top_tb.py:82-91 | the wire gains exactly the driven bits of `OutBits(v, n)` |
| DebugHost.Session.Accumulate | cocotb/chip_top_tb.py:94-102 | the sampling loop ORs each sampled bit into accumulator bit i ^ 7 |
| DebugHost.AccumStep | cocotb/chip_top_tb.py:98 | one OR step sets exactly the accumulator bit for the sampled bit |
| DebugHost.Session.ShiftIn | cocotb/chip_top_tb.py:93-105 | `twd_shift_in` returns InValue of the n bits the target drove |
| DebugHost.InValueOneBit | cocotb/chip_top_tb.py:117 | a one-bit read returns the bit itself |
| DebugHost.Session.ReadHead | cocotb/chip_top_tb.py:115-117 | the turnaround, the data and the parity bit, sampled in that order |
| DebugHost.Session.ReadReply | cocotb/chip_top_tb.py:114-120 | a read returns its data when the parity bit matches and a parity error otherwise, and samples the 3 trailing bits only on success |
| DebugHost.Session.ReadReplyShape | cocotb/chip_top_tb.py:114-120 | a reply is n + 6 bits long on good parity and n + 3 bits on bad parity |
| DebugHost.Session.SendWriteBody | cocotb/chip_top_tb.py:122-124 | the wire gains the turnaround, data and trailer of a write |
| DebugHost.Session.ReadTransfer | cocotb/chip_top_tb.py:114-120 | one read transfer logged, whose data or parity failure is the result |
| DebugHost.Session.WriteTransfer | cocotb/chip_top_tb.py:121-124 | one write transfer logged |
| DebugHost.Session.Command | cocotb/chip_top_tb.py:110-124 | DISCONNECT sends only the header; a write returns nothing; a read returns its data or a parity error; the wire carries exactly the frame |
| DebugHost.Session.ReadCmd | cocotb/chip_top_tb.py:114-120 | a read command seen from above: one transfer, result from its reply |
| DebugHost.Session.WriteCmd | cocotb/chip_top_tb.py:121-124 | a write command seen from above: one transfer |
| DebugHost.Session.PollStat | cocotb/chip_top_tb.py:156-159 | STAT is read until its busy bit clears, at most `limit` times; running out gives the caller's error |
| DebugHost.Session.SendConnectSeq | cocotb/chip_top_tb.py:136-137 | the 19 connect bytes go out raw, in order |
| DebugHost.Session.Resync | cocotb/chip_top_tb.py:134-137 | 80 bits sampled and discarded, a DISCONNECT, then the connect bytes |
| DebugHost.Session.Connect | cocotb/chip_top_tb.py:127-145 | the cached address is forgotten; the CSR check passes only for version 1 and ASIZE 0, and only then is EPARITY, EBUSFAULT and EBUSY written |
| DebugHost.Session.ReadIdcode | cocotb/chip_top_tb.py:147-148 | one R_IDCODE read of 32 bits |
| DebugHost.Session.WriteBus | cocotb/chip_top_tb.py:150-159 | W_ADDR is sent only if the address is not cached; then W_DATA and an unbounded STAT poll; the cache then holds addr; a bus write is logged only on success |
| DebugHost.Session.ReadBusStart | cocotb/chip_top_tb.py:163-168 | W_ADDR_R is always sent, then at most 10 STAT polls |
| DebugHost.Session.ReadBusReply | cocotb/chip_top_tb.py:171 | after the poll passes, one R_BUFF read, logged as a bus read only on success |
| DebugHost.Session.ReadBus | cocotb/chip_top_tb.py:161-171 | the cache holds addr even when the read fails; a timeout after 10 busy polls; otherwise the buffer's data |
| DebugHost.ReadBusFailed | cocotb/chip_top_tb.py:165-170 | a failed poll ends the read with that failure |
| DebugHost.Session.VuartWaitRx | cocotb/chip_top_tb.py:176-178 | VUART STAT is read until RXVLD is set, at most max_poll times |
| DebugHost.Session.VuartGetchar | cocotb/chip_top_tb.py:173-180 | the getchar access sequence: the low byte of the FIFO once RXVLD is seen, None after max_poll empty polls, a failure passed on |
| DebugHost.GetcharFailed | cocotb/chip_top_tb.py:176-177 | a failed status read ends getchar with that failure |
| DebugHost.GetcharChar | cocotb/chip_top_tb.py:178-179 | once RXVLD is seen, one FIFO read, whose low byte is the result |
| DebugHost.GetcharEmpty | cocotb/chip_top_tb.py:176-180 | max_poll status reads without RXVLD give None |
| DebugHost.StatReadsPolls | cocotb/chip_top_tb.py:176-178 | status reads that all but the last show RXVLD clear form a valid poll |
| RiscvEncoding.EncodeCommand | cocotb/chip_top_tb.py:216-220 | an access-register command word fits in 23 bits |
| RiscvEncoding.CommandRoundTrip | cocotb/chip_top_tb.py:216-220 | size, postexec, transfer, write and regno decode back from the command word |
| RiscvEncoding.GetGprCommandFields | cocotb/chip_top_tb.py:305-308 | the get-GPR command is a 32-bit transfer of register 0x1000 + gpr without write or postexec |
| RiscvEncoding.PutGprCommandFields | cocotb/chip_top_tb.py:285-289 | the put-GPR command is the same with the write bit set |
| RiscvEncoding.ExecCommandFields | cocotb/chip_top_tb.py:324-330 | the CSR and memory helpers write data0 into s0 and then execute; get_csr only executes (`:338`) |
| RiscvEncoding.ITypeRoundTrip | cocotb/chip_top_tb.py:322 | I-type fields decode back from their encoding |
| RiscvEncoding.STypeRoundTrip | cocotb/chip_top_tb.py:349 | S-type fields decode back from their encoding |
| RiscvEncoding.CsrwFromS0Fields | cocotb/chip_top_tb.py:322 | "csrw csr, s0" is csrrw x0, csr, s0 |
| RiscvEncoding.CsrrToS0Fields | cocotb/chip_top_tb.py:336 | "csrr s0, csr" is csrrs s0, csr, x0 |
| RiscvEncoding.FixedWordsFields | cocotb/chip_top_tb.py:337 | the dmdata0 word is "csrw 0xbff, s0"; `sw s1, (s0)`, `lw s0, (s0)` and `ebreak` decode to their fields |
| DmClient.HartSelect | cocotb/chip_top_tb.py:253 | DMCONTROL has DMACTIVE in its low half and the hart number in HARTSEL |
| DmClient.Rd | cocotb/chip_top_tb.py:161-171 | a bus read logs one access only when it succeeds |
| DmClient.Wr | cocotb/chip_top_tb.py:150-159 | a bus write logs one access only when it succeeds |
| DmClient.PollBus | cocotb/chip_top_tb.py:291-294 | a register is read until a bit reaches the wanted value, within a bound; the reads are logged |
| DmClient.WaitAcmdFinish | cocotb/chip_top_tb.py:296-302 | ABSTRACTCS is read at most 10 times until busy clears, and the wait fails with a timeout after 10 busy reads |
| DmClient.PutGpr | cocotb/chip_top_tb.py:283-294 | data0 is written, then the put-GPR command, then an unbounded ABSTRACTCS poll; a partial run is a prefix of that plan |
| DmClient.GetGpr | cocotb/chip_top_tb.py:304-311 | the get-GPR command, a bounded wait, then the data0 read, whose value is the result |
| DmClient.PutProgbuf | cocotb/chip_top_tb.py:313-317 | the cache slot takes the word; the bus write is made only if the cached word differs |
| DmClient.RunProgbuf | cocotb/chip_top_tb.py:322-331 | both program-buffer words, then the command, then a bounded wait; the cache ends holding both words |
| DmClient.Init | cocotb/chip_top_tb.py:240-247 | the progbuf cache is reset to [0, 0]; the transfers that follow begin with a complete `twd_connect` exchange, and a failed connect ends init with its error and no bus access; DMSTATUS.version must be 2; then DMCONTROL is written 0 and then DMACTIVE |
| DmClient.Activate | cocotb/chip_top_tb.py:244-247 | the part of init after connecting, with the version check failing after one read |
| DmClient.SelectHart | cocotb/chip_top_tb.py:263-265 | one DMCONTROL write of HartSelect(hart) |
| DmClient.CountHarts | cocotb/chip_top_tb.py:249-261 | the count is the number of harts probed present before the first absent one, at most 32 |
| DmClient.ProbeHart | cocotb/chip_top_tb.py:253-260 | a hart is present iff DMCONTROL reads back its selection and DMSTATUS.anynonexistent is clear; DMSTATUS is read only if the selection stuck |
| DmClient.ProbeAfter | cocotb/chip_top_tb.py:251-260 | probing one more hart extends the plan of accesses |
| DmClient.Request | cocotb/chip_top_tb.py:267-281 | DMCONTROL is read, written back with the request bit, then DMSTATUS is polled for the acknowledge bit |
| DmClient.Halt | cocotb/chip_top_tb.py:267-273 | a halt request acknowledged by DMSTATUS.allhalted |
| DmClient.Resume | cocotb/chip_top_tb.py:275-281 | a resume request acknowledged by DMSTATUS.allresumeack |
| DmClient.LoadAndRun | cocotb/chip_top_tb.py:321-331 | data0 is written, then the program buffer runs with s0 loaded from it |
| DmClient.PutCsr | cocotb/chip_top_tb.py:319-332 | s0 is saved, "csrw csr, s0; ebreak" runs with s0 = wdata, and the saved s0 is written back |
| DmClient.FetchCsr | cocotb/chip_top_tb.py:336-340 | "csrr s0, csr; csrw dmdata0, s0" runs without a transfer, and the result is the data0 read |
| DmClient.GetCsr | cocotb/chip_top_tb.py:334-342 | s0 is saved, the CSR is fetched through it, s0 is restored, and the CSR value is returned |
| DmClient.LoadWord | cocotb/chip_top_tb.py:364-375 | "lw s0, (s0); ebreak" runs with s0 = addr, and the result is s0 read back |
| DmClient.ReadMem32 | cocotb/chip_top_tb.py:362-377 | s0 is saved, the word is loaded, s0 is restored, and the word is returned |
| DmClient.ReadMemKeepsS0 | cocotb/chip_top_tb.py:362-377 | read_mem32 starts by copying s0 out through data0 and ends by writing that same word back to data0 and into s0; the address goes into data0 after the save, and the only program words written are `lw s0, (s0)` in slot 0 and `ebreak` in slot 1 |
| DmClient.SaveS0S1 | cocotb/chip_top_tb.py:345-346 | s0 then s1 are read with get-GPR |
| DmClient.StoreWord | cocotb/chip_top_tb.py:347-358 | s1 takes the data, then "sw s1, (s0); ebreak" runs with s0 = addr |
| DmClient.RestoreS0S1 | cocotb/chip_top_tb.py:359-360 | s0 then s1 are written back with put-GPR |
| DmClient.WriteMem32 | cocotb/chip_top_tb.py:344-360 | the store is made between saving and restoring both scratch registers; each poll has its own bound |
| DmClient.WriteMemKeepsS0S1 | cocotb/chip_top_tb.py:344-360 | write_mem32 copies out s0 and then s1 and ends by writing those same words back into s0 and then s1; in between the data goes into s1 and the address into data0, and the only program words written are `sw s1, (s0)` in slot 0 and `ebreak` in slot 1 |
| LcdExpect.Rgb555Word | cocotb/chip_top_tb.py:754 | blue stays in bits 4:0, bit 5 is clear, and red and green move up one bit |
| LcdExpect.Rgb555RoundTrip | cocotb/chip_top_tb.py:754 | the RGB555 colour is recovered from the widened word |
| LcdExpect.PixelWords | cocotb/chip_top_tb.py:755-756 | each pixel gives two data words (D/C set); the high byte followed by the low byte reassemble the converted 16-bit word |
| LcdExpect.Rgb555ToDisplayData | cocotb/chip_top_tb.py:752-756 | two data words per pixel, in order |
| LcdExpect.DisplayDataRoundTrip | cocotb/chip_top_tb.py:752-756 | the capture reads back as the pixels' 15-bit colours |
| LcdExpect.DisplayDataAppend | cocotb/chip_top_tb.py:752-756 | converting a concatenation concatenates the conversions |
| LcdExpect.HDouble | cocotb/chip_top_tb.py:758-761 | every element appears twice, in place |
| LcdExpect.UndoubleHDouble | cocotb/chip_top_tb.py:758-761 | taking every other element undoes the doubling |
| Bootrom.Add32 | software/bootrom/bootrom.c:19 | `uint32_t` addition wraps, and is exact when there is no overflow |
| Bootrom.AdlerStep | software/bootrom/bootrom.c:18-27 | one byte adds to A, and the new A adds to B, both modulo 65521 |
| Bootrom.Reduce | software/bootrom/bootrom.c:20-26 | one conditional subtraction reduces any sum below twice the prime |
| Bootrom.Pack | software/bootrom/bootrom.c:28 | B in the high half, A's low 16 bits in the low half |
| Bootrom.ChecksumAdler32 | software/bootrom/bootrom.c:14-29 | the loop computes the RFC 1950 Adler-32 of the first len bytes; an empty buffer gives 1 |
| Bootrom.SectorBase | software/bootrom/bootrom.c:36 | even attempts read sector 0, odd ones sector 1 |
| Bootrom.Le32 | software/bootrom/bootrom.c:40 | the stored checksum is the little-endian word of the last 4 bytes |
| Bootrom.TryImage | software/bootrom/bootrom.c:36-42 | IRAM receives the sector and nothing past it changes; the attempt succeeds iff the stored word equals the checksum |
| Bootrom.BootMain | software/bootrom/bootrom.c:31-53 | it jumps to the first valid image of 10 attempts with that image in IRAM, or gives up only when all 10 attempts are invalid |
| Bootrom.StubNeverBoots | software/bootrom/bootrom.c:7-12 | with the stub SPI read, which returns 0, no image is ever valid |
| DispCtrl.DispCtrl.constructor | software/include/dispctrl.h:12 | the driver starts with the given CSR value and an empty log of FIFO writes and delays |
| DispCtrl.DispCtrl.SetShiftWidth | software/include/dispctrl.h:27-34 | SHIFTCNT is set iff the width is 16; no other CSR bit changes |
| DispCtrl.DispCtrl.SetXdoubleYdouble | software/include/dispctrl.h:44-52 | XDOUBLE and YDOUBLE take the given values; no other bit changes |
| DispCtrl.DispCtrl.ForceDcCs | software/include/dispctrl.h:70-75 | DC and CS take the given values; no other bit changes |
| DispCtrl.ByteWord | software/include/dispctrl.h:89 | the byte is left-justified in the 16-bit FIFO word |
| DispCtrl.DispCtrl.PutByte | software/include/dispctrl.h:86-90 | one FIFO write of the left-justified byte under the current CSR |
| DispCtrl.DispCtrl.PutParams | software/include/dispctrl.h:151-152 | bytes 1 to n of the command go out in order, as data with CS low and an 8-bit shift |
| DispCtrl.DispCtrl.BeginCmd | software/include/dispctrl.h:145-146 | 8-bit shift, DC low and CS low, nothing else changed |
| DispCtrl.DispCtrl.EndCmd | software/include/dispctrl.h:154-156 | DC high, CS high and 16-bit shift, nothing else changed |
| DispCtrl.DispCtrl.WriteCmd | software/include/dispctrl.h:143-157 | the command byte goes out with DC low, the other count - 1 bytes with DC high, and the CSR ends in its idle state |
| DispCtrl.CmdPuts | software/include/dispctrl.h:143-157 | a command of count bytes makes max(count, 1) FIFO writes |
| DispCtrl.CmdCapture | software/include/dispctrl.h:143-157 | on the LCD: the command byte, then the parameters with D/C high |
| DispCtrl.ParamCapture | software/include/dispctrl.h:149-153 | the parameters show on the LCD with D/C high |
| DispCtrl.CmdNoDelays | software/include/dispctrl.h:143-157 | a command waits for nothing |
| DispCtrl.InitLogRecord | software/include/dispctrl.h:159-168 | walking a record gives its command, its delay times 5 ms, then the rest of the table |
| DispCtrl.InitLogAt | software/include/dispctrl.h:161-166 | one loop turn at offset p moves on by size + 2 |
| DispCtrl.DispCtrl.InitRecord | software/include/dispctrl.h:161-166 | one loop turn makes that record's writes and delay, and moves past it |
| DispCtrl.DispCtrl.Init | software/include/dispctrl.h:159-168 | the whole table is walked to its 0 byte; an empty table leaves the CSR unchanged |
| DispCtrl.RecordCapture | software/include/dispctrl.h:99-104 | a record shows its command byte, then its parameters with D/C high |
| DispCtrl.RecordCmdCapture | software/include/dispctrl.h:162 | the writes of `dispctrl_write_cmd(cmd + 2, *cmd)` show on the LCD as the record's capture |
| DispCtrl.Pauses | software/include/dispctrl.h:164 | each record's delay byte times 5 ms |
| DispCtrl.RecordCaptureEffect | software/include/dispctrl.h:159-168 | one record's contribution to the LCD capture |
| DispCtrl.RecordDelayEffect | software/include/dispctrl.h:159-168 | one record's contribution to the delays |
| DispCtrl.TableEffect | software/include/dispctrl.h:99-104 | a table built from records captures as those records in order and waits their delays |
| DispCtrl.WordCapture | cocotb/chip_top_tb.py:724 | a FIFO word shows on the LCD as its top byte with D/C in bit 8; a delay shows nothing |
| DispCtrl.CaptureAppend | cocotb/chip_top_tb.py:724 | the capture of two runs of writes is the two captures in order |
| DispCtrl.DelaysAppend | software/include/dispctrl.h:164 | the delays of two runs are the two lists of delays in order |
| DispCtrl.St7789Records | software/include/dispctrl.h:130-141 | each st7789 record is well formed and shows its own slice of the expected list |
| DispCtrl.St7789Split | cocotb/chip_top_tb.py:724-745 | the per-record parts, concatenated, are the testbench's list |
| DispCtrl.St7789Captures | cocotb/chip_top_tb.py:724-745 | the st7789 records show exactly the testbench's `expected_lcd_cmds_st7789` |
| DispCtrl.St7789Pauses | software/include/dispctrl.h:130-141 | the st7789 delays are 150, 500, 10, 0, 0, 0, 10, 10 and 500 ms |
| DispCtrl.St7789Init | software/include/dispctrl.h:130-168 | `dispctrl_init(st7789_init_seq)` shows the expected capture and, with `DISPCTRL_NO_DELAY` undefined, waits those delays |
| VUart.Port.constructor | software/include/vuart.h:7 | a fresh port has an empty log and keeps the pacing invariant |
| VUart.Port.WaitTxRdy | software/include/vuart.h:18-24 | status reads until TXRDY shows, or until the fuel runs out, and whether it showed |
| VUart.Port.Putc | software/include/vuart.h:11-27 | the log grows by exactly `vuart_putc`'s accesses; the pacing invariant is kept |
| VUart.PutcSpec | software/include/vuart.h:11-27 | putc reads STAT first; without HOSTCONN it writes nothing and returns; once it returns, it has written c, preceded by '\r' for '\n'; each write is paced |
| VUart.PutcKeepsPaced | software/include/vuart.h:11-27 | putc after a paced log leaves it paced |
| VUart.PutcWrites | software/include/vuart.h:14-26 | a connected putc of a character other than '\n' that returns writes exactly that character |
| VUart.WritesAppend | software/include/vuart.h:26 | the characters written by two runs are the two strings in order |
| VUart.SendNewline | software/include/vuart.h:21-26 | '\n' is sent as '\r', a wait for TXRDY, then '\n' |
| VUart.ExpandOne | software/include/vuart.h:21-26 | one character expands to "\r\n" for '\n' and to itself otherwise |
| VUart.UnexpandExpand | software/include/vuart.h:9-10 | the CR insertion loses no text: a terminal's "\r\n" to '\n' view recovers the string |
| VUart.ExpandAppend | software/include/vuart.h:33-43 | expanding a concatenation concatenates the expansions |
| VUart.Text | software/include/vuart.h:33 | the characters before the first NUL |
| VUart.SpinWriteSpec | software/include/vuart.h:39-41 | a wait then a write: the write comes only after TXRDY is seen |
| VUart.CharsRunSpec | software/include/vuart.h:33-43 | the loop writes a prefix of the expanded string, all of it if it completes, each write paced |
| VUart.CharsRunStops | software/include/vuart.h:35-40 | once a wait does not end, nothing more happens |
| VUart.Port.Puts | software/include/vuart.h:29-44 | the log grows by exactly `vuart_puts`'s accesses; the pacing invariant is kept |
| VUart.PutsSpec | software/include/vuart.h:29-44 | one HOSTCONN read first; without it nothing is written; a completed call writes the expanded text |
| VUart.PutsKeepsPaced | software/include/vuart.h:29-44 | puts after a paced log leaves it paced |
| VUart.Nibble | software/include/vuart.h:53 | `(x << i) >> 28` is a table index below 16 |
| VUart.NibbleIs | software/include/vuart.h:53 | that index is hex digit 7 - i/4 of x |
| VUart.HexCharsAt | software/include/vuart.h:51-55 | the k-th character is the table entry for hex digit 7 - k |
| VUart.HexTableDigits | software/include/vuart.h:46-49 | no table entry is '\n', so the hex output is never expanded |
| VUart.DigitValue | software/include/vuart.h:46-49 | each table character reads back as its index |
| VUart.ParseHexDigits | software/include/vuart.h:46-49 | n hex digits read back as the value modulo 16^n |
| VUart.HexDigitsAt | software/include/vuart.h:46-49 | digit k of the n-digit form is the table entry of the matching nibble |
| VUart.HexCharsSpec | software/include/vuart.h:46-55 | the 8 characters are table digits, most significant first, and read back as x |
| VUart.Port.PutHex32 | software/include/vuart.h:51-55 | eight putc calls of the hex digits, stopping if one does not return; the pacing invariant is kept |
| VUart.PutHex32Spec | software/include/vuart.h:51-55 | every write is paced; with the host connected, a completed call writes x's 8 hex digits |
| VUart.PutHex32KeepsPaced | software/include/vuart.h:51-55 | puthex32 after a paced log leaves it paced |
| VUart.PutcsPaced | software/include/vuart.h:51-55 | putc calls in a row keep every write paced |
| VUart.PutcsWrites | software/include/vuart.h:51-55 | connected putc calls of non-newline characters that all return write those characters |
| ApuAout.RdyIsSign | software/include/apu/aout.h:27-28 | `(int32_t)csr >= 0` is false exactly when RDY is set |
| ApuAout.FifoDataFields | software/include/apu/aout.h:26 | the FIFO word has l in its upper half and r in its lower half |
| ApuAout.SampleIsXor | software/include/apu/aout.h:37 | the sample is the source's XOR of `(uint16_t)i` with 0x8000 or 0 |
| ApuAout.SampleIs | software/include/apu/aout.h:35-38 | unsigned samples are i itself; signed ones read as i - 0x8000 in two's complement |
| ApuAout.RampUpIs | software/include/apu/aout.h:36-39 | the midrail ramp has 4097 samples, the k-th at i = 8k |
| ApuAout.RampDownIs | software/include/apu/aout.h:44-47 | the ground ramp has 4097 samples, the k-th at i = 0x8000 - 8k |
| ApuAout.MidrailSamples | software/include/apu/aout.h:33-40 | the ramp climbs from the bottom of the range to mid-rail in steps of 8, in either signedness |
| ApuAout.GroundIsReversed | software/include/apu/aout.h:42-48 | the ground ramp is the midrail ramp reversed |
| ApuAout.PairsFields | software/include/apu/aout.h:26-38 | one FIFO word per sample, with the sample in both the upper (left) and lower (right) half |
| ApuAout.PutSpec | software/include/apu/aout.h:25-31 | one FIFO write, paced by a read showing RDY, made only if the wait ends |
| ApuAout.PutKeepsPaced | software/include/apu/aout.h:25-31 | put_blocking after a paced log leaves it paced |
| ApuAout.PutsPaced | software/include/apu/aout.h:27-30 | successive put_blocking calls keep every FIFO write paced |
| ApuAout.PutsFifo | software/include/apu/aout.h:36-39 | the FIFO receives the samples' words in order, all of them if every call returns |
| ApuAout.RampSpec | software/include/apu/aout.h:33-48 | a ramp reads SIGNED once, then sends its samples in that signedness, each write paced |
| ApuAout.RampKeepsPaced | software/include/apu/aout.h:33-48 | a ramp after a paced log leaves it paced |
| ApuAout.StartSpec | software/include/apu/aout.h:11-15 | start sets ENABLE by read-modify-write keeping every other bit, sends nothing, and returns once RUNNING reads set |
| ApuAout.StartKeepsPaced | software/include/apu/aout.h:11-15 | start after a paced log leaves it paced |
| ApuAout.StopSpec | software/include/apu/aout.h:50-59 | stop is one read if ENABLE is clear; otherwise it waits for RUNNING, clears ENABLE keeping every other bit, and returns once RUNNING reads clear; it sends nothing |
| ApuAout.StopKeepsPaced | software/include/apu/aout.h:50-59 | stop after a paced log leaves it paced |
| ApuAout.QuietPaced | software/include/apu/aout.h:11-23 | accesses that send nothing to the FIFO keep a paced log paced |
| ApuAout.RmwLog | software/include/apu/aout.h:12 | `csr |= mask` / `csr &= ~mask` is one read, then a write of it with only that bit changed |
| ApuAout.FifoAppend | software/include/apu/aout.h:30 | the FIFO words of two runs are the two lists of words in order |
| ApuAout.Aout.constructor | software/include/apu/aout.h:9 | a fresh driver has an empty log and keeps the pacing invariant |
| ApuAout.Aout.Wait | software/include/apu/aout.h:13-14 | CSR reads until the bit reaches the wanted value, or until the fuel runs out |
| ApuAout.Aout.Start | software/include/apu/aout.h:11-15 | the log grows by exactly start's accesses; the pacing invariant is kept |
| ApuAout.Aout.SetSigned | software/include/apu/aout.h:17-23 | SIGNED becomes sgn by one read-modify-write, and no other bit changes; the pacing invariant is kept |
| ApuAout.Aout.PutBlocking | software/include/apu/aout.h:25-31 | the log grows by exactly put_blocking's accesses; the pacing invariant is kept |
| ApuAout.Aout.RampToMidrail | software/include/apu/aout.h:34-40 | the log grows by exactly the midrail ramp's accesses; the pacing invariant is kept |
| ApuAout.Aout.RampUpLoop | software/include/apu/aout.h:36-39 | i = 0, 8, ..., 0x8000 puts the midrail samples in order |
| ApuAout.Aout.RampToGround | software/include/apu/aout.h:42-48 | the log grows by exactly the ground ramp's accesses; the pacing invariant is kept |
| ApuAout.Aout.RampDownLoop | software/include/apu/aout.h:44-47 | i = 0x8000, ..., 8, 0 puts the ground samples in order |
| ApuAout.Aout.Stop | software/include/apu/aout.h:50-59 | the log grows by exactly stop's accesses; the pacing invariant is kept |
| Irq.OperandFields | software/include/irq.h:26-28 | `index | data << 16` splits back into index and data |
| Irq.ArrayWrite | software/include/irq.h:26 | `h3irq_array_write` is a csrw of the CSR it names, whose operand carries the index in its low half and the data in its high half when both fit in 16 bits |
| Irq.ArraySet | software/include/irq.h:27 | `h3irq_array_set` is a csrs of the CSR it names, whose operand carries the index in its low half and the data in its high half when both fit in 16 bits |
| Irq.ArrayClear | software/include/irq.h:28 | `h3irq_array_clear` is a csrc of the CSR it names, whose operand carries the index in its low half and the data in its high half when both fit in 16 bits |
| Irq.ArrayReadValue | software/include/irq.h:24 | the array read yields the upper 16 bits of what csrrs returned |
| Irq.Window | software/include/irq.h:32 | `irq >> 4` is the 16-IRQ window holding irq |
| Irq.WindowBit | software/include/irq.h:32 | `1u << (irq & 0xf)` has irq's bit in the window and no other |
| Irq.SetEnabled | software/include/irq.h:30-37 | a set of MEIEA to enable, a clear to disable |
| Irq.ForcePending | software/include/irq.h:43-50 | a set of MEIFA to force, a clear to unforce |
| Irq.EnableOperandNamesIrq | software/include/irq.h:30-50 | the operand names irq's window and bit, and so names irq itself |
| Irq.PendingReadOp | software/include/irq.h:39-41 | `irq_is_pending` makes one csrrs of MEIPA whose operand is the index of the 16-IRQ window that holds irq |
| Irq.ForcedReadOp | software/include/irq.h:52-54 | `irq_is_forced` makes one csrrs of MEIFA whose operand is the index of the 16-IRQ window that holds irq |
| Irq.WindowHas | software/include/irq.h:40 | the answer is irq's bit in the upper half of the readback |
| Irq.CurrentIrq | software/include/irq.h:56-60 | -1 iff NOIRQ (bit 15) is set, otherwise bits 12:4 |
| Irq.CurrentIrqOf | software/include/irq.h:56-60 | a context with NOIRQ, or naming IRQ n, reads back as -1 or n |
| Irq.EnableBit | software/include/irq.h:66-104 | a set of the CSR to enable, a clear to disable |
| Irq.EnableTouchesOneBit | software/include/irq.h:66-104 | each enable helper sets or clears its one documented bit of mstatus or mie, and keeps every other bit |
| Gpio.Padctrl.constructor | software/include/gpio.h:8 | the pad controller starts from the given register values |
| Gpio.Padctrl.PullDown | software/include/gpio.h:26-30 | pull-down on and pull-up off for that pin only, never both |
| Gpio.Padctrl.PullUp | software/include/gpio.h:32-36 | pull-up on and pull-down off for that pin only, never both |
| Gpio.Padctrl.PullNone | software/include/gpio.h:38-42 | both pulls off for that pin only |
| Gpio.SetAlternate | software/include/gpio.h:44-51 | one write of the pin's mask to FSEL_SET or FSEL_CLR |
| Gpio.SetAlternateSelects | software/include/gpio.h:44-51 | that pin's function select takes the value, and nothing else changes |
| Gpio.OutputEnable | software/include/gpio.h:53-59 | one write of the pin's mask to OEN_SET or OEN_CLR |
| Gpio.OutputEnableSets | software/include/gpio.h:53-59 | that pin's output enable takes the value, and nothing else changes |
| Gpio.Put | software/include/gpio.h:61-67 | one write of the pin's mask to OUT_SET or OUT_CLR |
| Gpio.PutDrives | software/include/gpio.h:61-67 | that pin's output takes the level, and nothing else changes |
| Gpio.Toggle | software/include/gpio.h:69-71 | one write of the pin's mask to OUT_XOR |
| Gpio.ToggleFlips | software/include/gpio.h:69-71 | that pin's output inverts, nothing else changes, and toggling twice restores the registers |
| Gpio.Get | software/include/gpio.h:73-75 | true iff the pin's input bit is set |

## Left out

- Timing (`Timer`, the TWD bit period), the cocotb plumbing (`Release()`, `dut` handles) and the test bodies that use these helpers: they are simulation scaffolding, not behaviour of the link.
- The testbench's `assert` statements are modelled as errors (`BadVersion`, `ParityError`, `Timeout`, `BadDmVersion`), not as exceptions that end the test.
- Every unbounded busy-wait, on either side of the link, is bounded by a `fuel` count of reads. A call that runs out reports that it did not return. Runs that spin forever are not modelled.
- The chip is an oracle: a function from the accesses so far to the next value read. The hardware behind the registers is not part of this model.
- The register headers `hw/*_regs.h` are not part of this model. Bit positions are parameters (a `Layout`), required to be distinct and below 32. The one fixed exception is RDY, which the source itself says is the sign bit.
- `volatile` semantics, aliasing between register blocks and compiler reordering are not modelled; each register access is one entry of a log.
- `get_spi_byte` is a parameter `spi`. The stub in the source always returns 0, and `StubNeverBoots` shows what that stub implies.
- The jump into IRAM and the final `wfi` loop of the boot ROM are not modelled: `BootMain` returns the index of the image it would run, or None.
- `dispctrl_wait_idle` and the PXFIFO_FULL wait in `dispctrl_put_byte` are left out: they only read status and do not change what reaches the FIFO.
- `dispctrl_set_parallel_mode`, `dispctrl_set_half_rate`, `dispctrl_set_scan_enabled`, `dispctrl_set_scanbuf_size`, `dispctrl_put_hword` and `dispctrl_start_pixels` are left out: they are single-bit CSR updates or single FIFO writes of the kind `SetShiftWidth` and `PutByte` already cover.
- The ili9341 init table is left out; only the st7789 table, which the testbench checks, is modelled.
- The `delay_ms` call of `dispctrl_init` (software/include/dispctrl.h:164) is modelled as a `Delay` event in the display log; the delay loop itself (`delay.h`) is not part of this model.
- The model takes `DISPCTRL_NO_DELAY` as undefined, so `dispctrl_init` waits. The display tests in software/tests/eram/display_init_serial.c:3 and display_init_parallel_halfrate.c:3 define it: their runs have no `Delay` events, and what reaches the LCD is the same.
- `irq_set_handler` and the external IRQ table are left out: they are a plain store into a C array.
- `hazard3_csr.h` is not part of this model. `read_set_csr`, `set_csr`, `clear_csr` and `write_csr` are modelled as CSR operations, with their effect on ordinary CSRs written out (`ApplyCsr`).
- Irq.EnableOperandNamesIrq: proved only for irq below 2^20. Above that, `irq >> 4` overflows into the data half of the operand. Hazard3 has at most 512 IRQs.
- VUart characters are Dafny `char`, written to the FIFO as given. The `(uint32_t)` cast of a C `char` is not modelled.
- `filter.py`, `mtime.h`, `spi_stream.h`, `delay.h`, `apu.h` and `ipc.h` are not part of this model.
- `rgb565_to_displaydata` and the other capture tables of the testbench are left out; only `rgb555_to_displaydata`, `hdouble` and the st7789 command list are modelled.
