# LTZVisor: verified models of its library, drivers and scheduler primitives

LTZVisor is a small TrustZone hypervisor; a FreeRTOS guest comes with it. This
project models the algorithms of both that stand on their own, in the form their C
sources have (loops over memory, registers updated in place, linked rings), and
proves what they are for.

- `Memory`, `StringLib`: one flat byte memory; `memcpy` with its word and byte
  paths, `memset` and the string routines, overlapping regions included.
- `Digits`, `Format`, `Printk`, `FormatProperties`, `FormatMeaning`: the `vsprintk`
  formatter. A format is read as tokens; `Format.Render` says what they print;
  `Printk.Vsprintk` is the pointer-advancing formatter, proved to write exactly that.
  `FormatProperties` proves what printed texts have in common. `FormatMeaning` says,
  of the bytes of formats alone, what every single directive prints, what plain text
  prints, and that formats put together print their texts put together, which
  determines the output of any format. The hypervisor and the guest each have a copy
  of the source; the parameter `Copy` selects one.
- `Bits`, `GicRegisters`, `GicDriver`: the interrupt distributor's packed registers
  as a refinement of tables with one entry for each interrupt, and start-up.
- `Uart`: the baud rate search with every 8-, 16- and 32-bit truncation.
- `Ttc`: the timers as state machines, which of the six can be used, and how long
  their periods are.
- `SchedulerList`, `ReadyPriorities`: the FreeRTOS list and ready bits.
- `GuestImage`: creating the non-secure guest, which composes the string library's
  routines over one memory that holds the record, the configuration and the images.

Where the code and what it is meant for part, the code is modelled as it is and
the exact condition is proved:

- `memcpy` copies faithfully for every memory content exactly when the destination
  does not begin strictly inside the source (`Memory.FaithfulIffNotAhead`).
- A pad character outside `'1'..'8'` is not refused by `vsprintk`; the modular
  arithmetic it leads to is modelled. Zero then may print as nothing at all
  (`FormatProperties.BlankNumbers`), and the two copies print a hexadecimal number
  differently for pads above 8; the guest's `%u` prints nothing and takes no
  argument (`FormatProperties.CopiesAgreeIff`).
- A baud rate programmed for a request of up to 130208 is within the allowed half
  percent and never below the request; from 130209 to 130238 it is 50% too high,
  because its error of more than 65536 is kept in a 16-bit variable (`Uart.SoundIff`).
  Nothing programmed above 10000000 is within half a percent, and 10000000 itself is
  met exactly (`Uart.NeverAbove10000000`, `Uart.FastestRate`). Between 130239 and
  10000000 good and bad requests alternate irregularly, and only the search itself
  decides. Of the rates up to 50000 it finds one for all but 1 and 2
  (`Uart.FoundIff`).
- The calls of the timer driver refuse the third timer of each device, although the
  header declares it and `ttc_interrupt_clear` serves its interrupt: its registers
  keep their contents in every run, and it is the only one that cannot be used
  (`Ttc.KeptIff`, `Ttc.UsableIff`).
- A time up to 1 ms requested from a timer is right exactly when no longer time was
  requested from it before, since prescaler bits are only ever added
  (`Ttc.PeriodRightIff`; a run in which it goes wrong is `Ttc.ShortAfterLong`).
- Distributor start-up says it configures the shared interrupts, but the bound of
  its loop covers interrupts 32 to 63 only (`GicDriver.ConfiguredIff`).

Conventions: a 32-bit unsigned value is a natural number below 2^32, with `% 2^32`
where it can wrap, or a `bv32` where the source works on single bits; a right shift
of an unsigned value is a division by a power of two. Negating the least signed
number, which C leaves undefined, is taken to wrap, as it does on this processor.
Plain `char` is unsigned, as it is on ARM.

## Model

| member | source | states |
|---|---|---|
| StringLib.Memcpy | src/lib/string.c:60-89 | on the aligned word path and on the byte path alike, memory ends up as after a forward byte-by-byte copy, for every pair of positions, overlaps included |
| StringLib.CopyWords | src/lib/string.c:66-74 | the word loop copies all whole words and stops fewer than four bytes before the end, never past it |
| Memory.WordStoreIsFourBytes | src/lib/string.c:71 | a whole-word store equals four byte copies when the two words coincide or are apart, which word alignment guarantees |
| Memory.ForwardCopyEffect | src/lib/string.c:60-89 | every byte of memory after a copy, traced to where it was before: the destination repeats with period d when it starts d bytes inside the source; outside it nothing changes |
| Memory.FaithfulIffNotAhead | src/lib/string.c:60-89 | the destination equals the old source for all memory contents iff it does not begin strictly inside the source |
| StringLib.Memset | src/lib/string.c:100-112 | exactly the given bytes are set, to the value truncated to a byte |
| StringLib.Strlen | src/lib/string.c:139-146 | the distance to the first NUL |
| StringLib.Strnlen | src/lib/string.c:156-163 | the distance to the first NUL, or the bound if that is further |
| StringLib.Strcpy | src/lib/string.c:173-181 | memory after copying a string, for every overlap on which the loop stops |
| StringLib.Strcat | src/lib/string.c:122-130 | memory after appending a string |
| StringLib.StrcpyResult | src/lib/string.c:173-181 | the destination holds the source's string, even when the copy changes the source |
| StringLib.StrcatResult | src/lib/string.c:122-130 | the destination holds its own string followed by the source's |
| Memory.CopyIntoOwnTailNeverMeetsNul | src/lib/string.c:173-181 | a string copied into its own tail never meets a NUL, so its loop would not stop: why the copies demand that it does not |
| Printk.Vsprintk | src/lib/printk.c:50-266 | the buffer ends up holding exactly the rendered text, a NUL and what was there before; the value returned is its measured length; holds for every complete format and matching arguments |
| Printk.PutTokens | src/lib/printk.c:55-263 | the format loop writes the rendering of all tokens, taking arguments in order |
| Printk.PutToken | src/lib/printk.c:55-262 | one round advances past exactly one token and writes its text, with the doubled newline or tab after a percent sign |
| Printk.ReadDirective | src/lib/printk.c:61-84 | from the percent sign the pointer reaches the conversion character, with the pad read modulo 2^32 |
| Printk.PutHex | src/lib/printk.c:87-132 | the nibble loop writes the hexadecimal digits without leading zeros, filled up to the pad |
| Printk.PutUnsigned | src/lib/printk.c:157-183 | repeated subtraction with recomputed divisors writes the decimal digits, filled up to the pad |
| Printk.Quotient | src/lib/printk.c:162-165 | the subtraction loop ends with quotient and remainder |
| Printk.NextDivisor | src/lib/printk.c:173-180 | the multiplication loop yields the next lower power of ten |
| Printk.DecimalPosition | src/lib/printk.c:161-181 | what one position's subtraction extracts is the digit of that weight, a number below ten, and leaves the lower digits |
| Printk.PutSigned | src/lib/printk.c:143-150 | a minus sign and the magnitude for negative words, the digits otherwise |
| Printk.PutOctal | src/lib/printk.c:185-215 | the two-bit leading digit and the ten three-bit slices write the octal digits |
| Printk.ShiftedSlice | src/lib/printk.c:202-205 | the left shift by two drops only the top bits: each slice is the digit of its weight |
| Printk.PutString | src/lib/printk.c:216-225 | copies as much of the argument as the allowance still permits and uses that much of it up |
| Digits.PrintedStep | src/lib/printk.c:96-130 | one position of any of the three printers: the digit is shown iff it or an earlier one is nonzero or the position is within the padding |
| Digits.SignificantCount | src/lib/printk.c:87-215 | a number has at most k digits without leading zeros iff it is below base^k |
| FormatProperties.HexRoundTrip | src/lib/printk.c:87-132 | reading the text in base 16 gives the number back; its length is the larger of the digits needed and the pad |
| FormatProperties.OctalRoundTrip | src/lib/printk.c:185-215 | the same in base 8 |
| FormatProperties.UnsignedRoundTrip | src/lib/printk.c:133-184 | the same for unsigned decimal, for every word |
| FormatProperties.SignedRoundTrip | src/lib/printk.c:133-184 | reading signed decimal text gives the signed word back, the least one included; its length is that of the magnitude's text and the sign's |
| FormatProperties.Widths | src/lib/printk.c:87-215 | with pads 1 to 8 every number's text is between the pad and 8, 11, 10 or, signed, 11 characters wide |
| FormatProperties.BlankNumbers | src/lib/printk.c:102-209 | exactly when hexadecimal and octal numbers print as nothing; decimal ones never do |
| FormatProperties.NulInOutput | src/lib/printk.c:226-231 | the output contains NUL iff some character directive was given NUL |
| FormatProperties.ReturnedValue | src/lib/printk.c:264-265 | without such a NUL the buffer is the text as a C string and the value returned is the smaller of its length and 256 |
| FormatProperties.StringsShareAllowance | src/lib/printk.c:216-225 | all string directives of a call together print the prefix of their joined arguments that the allowance permits, whatever stands between them |
| FormatProperties.NewlinesPaired | src/lib/printk.c:237-262 | every newline of the output not from an argument has a carriage return before it |
| FormatProperties.CopiesAgreeIff | ns_guest/src/printk.c:102-137 | the directives on which the two copies never differ: all but unsigned decimal and hexadecimal with a wide pad |
| FormatProperties.CopiesAgree | ns_guest/src/printk.c:50-270 | a format of such directives prints the same through both copies |
| FormatMeaning.PutTogether | src/lib/printk.c:55-263 | formats put together take their arguments and print their texts in turn, the second with the allowance for strings that the first has left |
| FormatMeaning.PlainText | src/lib/printk.c:56-59 | a format without a percent sign prints itself with a carriage return before every line feed, and just itself if it has none |
| FormatMeaning.PrintsHex | src/lib/printk.c:87-132 | "%x" with any padding character and 'l' takes one word and prints a text that read in base 16 is the word, of the width that the padding gives |
| FormatMeaning.PrintsOctal | src/lib/printk.c:185-215 | likewise "%o" in base 8, with the one digit more that a pad above ten shows |
| FormatMeaning.PrintsUnsigned | src/lib/printk.c:133-184 | likewise "%u" in base 10, in the hypervisor |
| FormatMeaning.GuestPrintsNoUnsigned | ns_guest/src/printk.c:133-137 | "%u" in the guest takes no argument and prints nothing |
| FormatMeaning.PrintsSigned | src/lib/printk.c:133-184 | likewise "%d" and "%i": a word from 2^31 up prints as a minus sign and 2^32 less the word |
| FormatMeaning.WidthsAskedFor | src/lib/printk.c:65-76 | without padding the width is 1, and with "0" and a digit from 1 to 8 it is that digit, in every base |
| FormatMeaning.PrintsCharacter | src/lib/printk.c:226-231 | "%c" prints its character |
| FormatMeaning.PrintsString | src/lib/printk.c:216-225 | "%s" prints the prefix of its string that the allowance permits and uses that much up |
| FormatMeaning.PrintsAlone | src/lib/printk.c:232-262 | "%%" prints a percent sign; a percent sign before a newline or tab prints itself and the line end twice; any other conversion prints nothing |
| FormatMeaning.ReadsDigit | src/lib/printk.c:87-215 | how the texts above are read: with the digits 0 to 9 and a to f, the last of least weight |
| FormatMeaning.BufferAfterCall | src/lib/printk.c:50-265 | the buffer a call leaves holds the format's text, printed with an allowance of 256 less the length found at first, a NUL, and what was there before |
| GicDriver.Distributor.InterruptEnable | src/drivers/gic.c:206-223 | one write to the set- or clear-enable register changes the enable bits as the abstract call does |
| GicDriver.Distributor.InterruptPrioritySet | src/drivers/gic.c:233-251 | the priority words after the call; returns the interrupt's priority before it |
| GicDriver.Distributor.InterruptTargetSet | src/drivers/gic.c:262-281 | the target words after the call |
| GicDriver.Distributor.InterruptSecurityConfig | src/drivers/gic.c:321-338 | the security words after the call |
| GicDriver.Distributor.InterruptSecurityConfigAll | src/drivers/gic.c:304-311 | all security words but the first are all ones |
| GicRegisters.CallRefines | src/drivers/gic.c:206-338 | each call changes the packed registers so that exactly the entry it names changes, and to what it asks for |
| GicRegisters.RunRefines | src/drivers/gic.c:206-338 | after any run of calls an interrupt's entry is what its own calls alone make of it |
| GicRegisters.PriorityAfterRun | src/drivers/gic.c:233-251 | the priority read back is the one last set; the reserved low nibble never changes |
| GicRegisters.BitWrittenMeans | src/drivers/gic.c:206-338 | enabling or disabling interrupt i, or setting its security, writes bit i counted through the register row and no other bit |
| GicRegisters.TargetWrittenMeans | src/drivers/gic.c:262-281 | setting a target writes bit 8 * i + cpu counted through the row and no other bit |
| GicRegisters.PriorityWrittenMeans | src/drivers/gic.c:233-251 | setting a priority writes the high half of byte i and no other bit |
| GicRegisters.PriorityRead | src/drivers/gic.c:250 | the priority read is the high half of byte i |
| GicRegisters.AllWrittenMeans | src/drivers/gic.c:304-311 | all bits from the second register on are set, the first is kept |
| GicRegisters.EntryMeans | ns_guest/inc/gic.h:57-227 | where in the registers the entries of the tables are |
| GicDriver.Distributor.DistributorInit | src/drivers/gic.c:88-141 | wrong identification changes nothing and fails; otherwise the whole new register state |
| GicDriver.InterfaceInit | src/drivers/gic.c:151-195 | the interface's registers after start-up, with nothing left to acknowledge and nothing newly active |
| GicDriver.CpuInterface.Drain | src/drivers/gic.c:176-188 | every waiting interrupt is acknowledged once and ended once, right after; the loop stops at the first spurious one |
| GicDriver.SpuriousMeans | src/drivers/gic.c:182 | the acknowledge values that end the loop are those whose ten low bits are all ones |
| GicDriver.ResetTable | src/drivers/gic.c:103-161 | after both routines every interrupt is disabled, at priority 0 and without a target, from any register contents |
| GicDriver.ConfiguredIff | src/drivers/gic.c:130-134 | start-up is sure to configure a shared interrupt iff its number is below 64 |
| Uart.Port.SetBaudRate | ns_guest/src/zynq_uart.c:87-140 | the search is made for the rate asked for, or for 115200 if that is 0; the divisors are written in the order that keeps the port off meanwhile, or nothing is; for 1 to 130208 baud the written divisors give at least the rate asked for and less than half a percent more, up to 50000 from 3 they are always found, and above 10000000 they never do |
| Uart.Search | ns_guest/src/zynq_uart.c:109-124 | the loop finds `Found`, the outcome of the first round not rejected |
| Uart.Found | ns_guest/src/zynq_uart.c:109-124 | every requested rate has an outcome, that of the first round not rejected |
| Uart.OutcomeUnique | ns_guest/src/zynq_uart.c:109-124 | a requested rate has one outcome |
| Uart.NothingWraps | ns_guest/src/zynq_uart.c:111-113 | in a round whose product of rate and divider is from 763 to the clock's 50000000 no intermediate wraps or is zero, the rate is never below the one asked for, and the error is below baud / CD |
| Uart.SmallProducts | ns_guest/src/zynq_uart.c:111 | below 763 the divisor loses its top bits, but what is left is above 152 for every product but 762 |
| Uart.SoundUpTo130208 | ns_guest/src/zynq_uart.c:109-124 | for 1 to 130208 baud a programmed rate is within half a percent and not below the one asked for, and no round divides by zero |
| Uart.SmallestDivider | ns_guest/src/zynq_uart.c:109-124 | for 153 to 130208 baud the divider programmed is the smallest from 4 to 254 with which the rate is met, and none is programmed only if there is none |
| Uart.UnsoundFrom130209 | ns_guest/src/zynq_uart.c:113-114 | for 130209 to 130238 baud every round but the last is rejected and the last programs 196078 |
| Uart.SoundIff | ns_guest/src/zynq_uart.c:109-124 | for 1 to 130238 baud the request is served well iff it is at most 130208 |
| Uart.NeverAbove10000000 | ns_guest/src/zynq_uart.c:109-124 | no rate programmed for more than 10000000 baud is within half a percent, products that wrap included |
| Uart.FastestRate | ns_guest/src/zynq_uart.c:109-124 | 10000000 baud is met exactly |
| Uart.FoundIff | ns_guest/src/zynq_uart.c:109-124 | for 1 to 50000 baud a rate is programmed iff at least 3 baud are asked for |
| Uart.FirstRoundUpTo50000 | ns_guest/src/zynq_uart.c:109-119 | for 153 to 50000 baud the first round is accepted, with CD at least 200 |
| Uart.FalselyAccepted | ns_guest/src/zynq_uart.c:113-114 | 839358 baud is accepted with 909090 |
| Uart.DefaultRate | ns_guest/inc/zynq_uart.h:197-199 | the default rate is met in the second round |
| Ttc.Ttcs.TtcInit | ns_guest/src/zynq_ttc.c:65-111 | the addressed timer's registers after the call, other timers unchanged, invalid arguments refused |
| Ttc.Ttcs.TtcEnable | ns_guest/src/zynq_ttc.c:121-142 | likewise |
| Ttc.Ttcs.TtcDisable | ns_guest/src/zynq_ttc.c:152-171 | likewise |
| Ttc.Ttcs.TtcRequest | ns_guest/src/zynq_ttc.c:182-241 | likewise, and succeeds iff the time is in range and the timer has a mode; a failing call may still stop the timer and set its prescaler |
| Ttc.CallEffect | ns_guest/src/zynq_ttc.c:71-189 | a call is refused without effect unless its timer is 0 or 1 of device 0 or 1, and its mode below 3; otherwise it changes that timer's registers only |
| Ttc.InitEffect | ns_guest/src/zynq_ttc.c:76-108 | the five registers after ttc_init, as numbers, the enabled interrupt included |
| Ttc.EnableEffect | ns_guest/src/zynq_ttc.c:134-139 | bit 4 set, bit 0 cleared, nothing else |
| Ttc.DisableEffect | ns_guest/src/zynq_ttc.c:165-168 | bit 0 set, nothing else |
| Ttc.RequestEffect | ns_guest/src/zynq_ttc.c:196-234 | for a time in range, which bits of the two control registers are set and which of the two counts gets the ticks |
| Ttc.OutOfRangeEffect | ns_guest/src/zynq_ttc.c:196-222 | for any other time, the timer is stopped and nothing else changes |
| Ttc.CountsIffLastEnabled | ns_guest/src/zynq_ttc.c:65-241 | after any run a timer counts iff the last valid call addressed to it was ttc_enable |
| Ttc.ModeIsLastInit | ns_guest/src/zynq_ttc.c:88-108 | its mode is the one its last valid ttc_init gave it |
| Ttc.TimersIndependent | ns_guest/src/zynq_ttc.c:65-241 | it ends up as if only the calls addressed to it had been made |
| Ttc.PrescalerAfterRun | ns_guest/src/zynq_ttc.c:205-214 | from a clear field the prescaler value is the long one once a long time was requested, for good |
| Ttc.PrescalerOnAfterRun | ns_guest/src/zynq_ttc.c:79-214 | after any run the prescaler is on iff the last call that switches it was a request in range and not ttc_init |
| Ttc.CyclesPerTickIs | ns_guest/src/zynq_ttc.c:202-214 | the length of a tick for the whole clock control register: 4096 or 4 cycles for the two settings requested, while the prescaler is on |
| Ttc.KeptIff | ns_guest/src/zynq_ttc.c:71 | a declared timer keeps its registers in every run iff it is the third of its device |
| Ttc.ThirdTimerRefused | ns_guest/src/zynq_ttc.c:71-189 | all four calls are refused for timer 2 of device 0 |
| Ttc.UsableIff | ns_guest/src/zynq_ttc.c:65-241 | in interval and in match mode, from any registers with a clear prescaler, a declared timer can be made to count with the right period and the right interrupt for a given time in range iff its number is below 2 |
| Ttc.TicksRight | ns_guest/src/zynq_ttc.c:202-217 | the tick counts fit 16 bits and miss the time by less than a tick with the prescaler meant for them; a short time with the long prescaler always misses |
| Ttc.PeriodRightIff | ns_guest/src/zynq_ttc.c:182-241 | the period programmed is right iff the time is long or no long time was requested before |
| Ttc.ShortAfterLong | ns_guest/src/zynq_ttc.c:203-217 | requesting 500 us after 2000 us programs half a second, an initialization in between notwithstanding |
| SchedulerList.List.GetOwnerOfNextEntry | ns_guest/inc/FreeRTOS/list.h:277-288 | the index moves to the next item, over the end marker, and its owner is returned; the ring is unchanged |
| SchedulerList.List.TakeTurns | ns_guest/inc/FreeRTOS/list.h:256-288 | the owners returned by n uses in a row; by as many uses as there are items, the items' owners from the index on and then from the start |
| SchedulerList.EveryItemOnce | ns_guest/inc/FreeRTOS/list.h:256-288 | the owners returned in n turns among n items are the items' owners from the index on and then from the start, so each exactly once, and the index comes back to the item it stood on |
| SchedulerList.OneTurnEach | ns_guest/inc/FreeRTOS/list.h:256-288 | in n turns among n items each item has exactly one, at a given turn |
| SchedulerList.List.constructor | ns_guest/lib/freertos/list.c:37-59 | an empty ring of the end marker alone |
| SchedulerList.List.InsertEnd | ns_guest/lib/freertos/list.c:74-100 | the item joins the ring just before the index, which stays on its item |
| SchedulerList.NewItemIsLast | ns_guest/lib/freertos/list.c:84-88 | in the ring that the insertion leaves, the new item has its turn after all others but the one that had the last turn |
| SchedulerList.List.Insert | ns_guest/lib/freertos/list.c:103-167 | the item joins after the leading items of no greater value, at the very end for the greatest value |
| SchedulerList.InsertKeepsOrder | ns_guest/lib/freertos/list.c:114-119 | a ring in order stays in order, the new item after all of equal value |
| SchedulerList.List.Remove | ns_guest/lib/freertos/list.c:170-196 | the item leaves the ring, the index steps back if it stood on it, the new count is returned |
| SchedulerList.RemovalKeepsNext | ns_guest/lib/freertos/list.c:182-186 | removing an item does not change whose turn is next unless it was that item's |
| ReadyPriorities.ReadyList.Record | ns_guest/inc/FreeRTOS/portmacro.h:195 | the bit word after recording a priority |
| ReadyPriorities.ReadyList.Reset | ns_guest/inc/FreeRTOS/portmacro.h:196 | the bit word after resetting one |
| ReadyPriorities.ReadyList.GetHighest | ns_guest/inc/FreeRTOS/portmacro.h:200 | the greatest priority whose bit is set |
| ReadyPriorities.ReadyMeans | ns_guest/inc/FreeRTOS/portmacro.h:195-196 | a priority is ready iff the bit of its number is set; recording and resetting change that bit only |
| ReadyPriorities.LeadingZerosMean | ns_guest/inc/FreeRTOS/portmacro.h:200 | 31 less the leading zeros is the number of the highest bit set |
| ReadyPriorities.ReadyAfterRun | ns_guest/inc/FreeRTOS/portmacro.h:195-196 | after any run the bits set are the priorities last recorded |
| ReadyPriorities.HighestAfterRun | ns_guest/inc/FreeRTOS/portmacro.h:195-200 | from empty, the word is zero iff nothing is ready, and otherwise the number computed is the highest ready priority |
| GuestImage.InitRecord | src/core/ltzvisor_api.c:116-142 | the record holds the configured name and id, and registers that are all zero but the four set; nothing else changes |
| GuestImage.LoadImage | src/core/ltzvisor_api.c:148-150 | only the load region changes, and it holds the image unless it begins inside it |
| GuestImage.Create | src/core/ltzvisor_api.c:113-160 | the record is ready, the binary and the RAM disk are at their load addresses as they were at first under the stated separation of regions, and no other byte of memory differs |
| GuestImage.RecordMeans | src/core/ltzvisor_api.c:116-142 | the record by byte offset: the load address in lr_mon, 0x193 in spsr_mon, the two CP15 values, every other register zero, name, id and the booting flag |
| GuestImage.WordIsBytes | src/core/ltzvisor_api.c:117-138 | a word of memory is its four bytes, the least significant first, as the processor stores it |
| GuestImage.CreatedRecord | src/core/ltzvisor_api.c:116-142 | after Create the record is as the configuration's words at their byte offsets ask for |
| GuestImage.BinaryInPlace | src/core/ltzvisor_api.c:148 | after Create the binary is at its load address as it was at first, unless it was copied into its own tail or from the record, or the RAM disk was loaded over it |
| GuestImage.RamDiskInPlace | src/core/ltzvisor_api.c:149-151 | likewise the RAM disk, unless the binary was loaded over its source |
| GuestImage.RestUnchanged | src/core/ltzvisor_api.c:113-160 | after Create no byte outside the record and the load regions differs, nor do the record's interrupt controller registers |

## Left out

- Aliasing between the print buffer, the format and the string arguments: the format and the arguments are values, so a `%s` argument that lies in the buffer is not modelled.
- The variadic argument pointer: arguments are a typed sequence, and a call whose arguments do not match its format is not modelled. Formats whose last directive is incomplete, over whose end the source reads, are excluded.
- printk's own buffer and the serial output of its text; in `ltzvisor_nsguest_create` the progress messages.
- StringLib.Memcpy: counts of 2^31 - 2 and more are excluded, since the signed loop counter overflows there, which C leaves undefined.
- StringLib.Strnlen: that the byte at the bound is read as well shows only in its precondition.
- Ttc.PeriodRightIff: starts from a prescaler value field that is clear, as it is after reset.
- GuestImage.Create: demands that the record, the configuration and the load regions are apart and that the configured name fits, which the platform's linker script and configuration provide.
- `cp15_restore`, `set_guest_context`, hardware initialization and the monitor's entry and exit, which are assembly, and `ltzvisor_schedule` and `ltzvisor_nsguest_restart`, which only loop.
- Device behaviour beyond registers that store, set or clear: reserved and read-only fields, such as the target registers of interrupts 0 to 31, self-clearing bits, timing; the order in which the controller reports waiting interrupts is left open.
- Ttc.CyclesPerTickIs: the clock control register's choice of an external clock (bit 5) is not considered; the driver never sets it.
- The drain loop's device model reports every waiting interrupt even though the interface has just been disabled.
- `interrupt_clear`, the critical sections, the handler table and `ttc_interrupt_clear`: single register accesses or fixed tables.
- `uart_init`, which repeats the search for the default rate, and the transfer of single characters.
- FreeRTOS's task, queue, timer and heap code; the list's integrity-check fields are configured off.
