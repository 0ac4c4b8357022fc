# Verified models of the STM32F4 drivers

A Dafny model of the algorithms in the boot loader's drivers
(`bootLoader/drivers`), with proofs. `dafny verify dfyconfig.toml` checks it all.
Each driver is one module. Its operations are methods on a class holding the
fields the driver changes, proved equal to functions on the state; the lemmas are
about those functions, over every input or every run. Hardware and HAL calls are
small state machines or oracles: a function says how the n-th call ends.

- `OnChipFlash` — a write as aligned word, halfword and byte programs with
  read-back, an erase as a range of unequal sectors, and the 128 KB FAL device, for
  every 32-bit address and size. Programming clears bits only. A failed program
  leaves any bits uncleared, a failed erase leaves its sector holding anything.
- `EthernetDma` — pbuf chains copied into and out of a ring of DMA buffers, the
  hand-over to the DMA, the scan for a received frame, and a loop-back over the wire.
- `UartDma` — the new and the old accounting of a circular DMA buffer, as step
  machines over byte arrivals and interrupts.
- `CrcCache` — skipping the programming of the CRC engine when the remembered
  configuration matches. The engine's CRC step is an arbitrary function.
- `PinIrq` — the handler table, the enable mask and the shared NVIC lines.
- `CanFilter` — filter registers and mailbox words as sets of their one bits.
- `UsDelay`, `PwmTimer`, `PmTicks`, `SpiChunks`, `PulseEncoder` — bounded
  arithmetic and wrapping counters, with 32-bit wrap-around written out.
- `Arithmetic` — facts about quotients and products that these share.

## What turned out false, and when it holds

- Flash: `addr + size` wraps around in the end checks. An erase of the 128 KB device
  from an offset of 0xE0000 or more whose sum wraps to at most the end of the flash
  erases the boot loader (`OnChipFlash.WrappedEraseTakesBootLoader`).
  `OnChipFlash.SafeIff` says which operations leave it alone, and
  `OnChipFlash.ReachedByWrappingOnly` what that means for offsets of 0 and more. The
  result of a size of 2^31 or more is a negative number even if all went well.
- Ethernet: a frame of more buffers than the ring has comes round to its own first
  buffer before any is handed over. `EthernetDma.Ring.Transmit` says that the
  descriptor at its start is marked as the first exactly when it fits the ring;
  `EthernetDma.Ring.LoseOverlongFrame` transmits one that does not, which reports
  success while its first segment is in no buffer any more.
- UART, new driver: an IDLE handler that reads the counter just after a wrap makes
  the transfer-complete handler waiting behind it report a full buffer that never
  arrived (`UartDma.IdleAfterWrapMakesCompleteSpurious`). Without overruns, a run is
  accounted for exactly when no transfer-complete is served with nothing new
  (`UartDma.ConservedIff`). Half-transfer may come at any time.
- UART, old driver: a half-transfer served as late as the wrap is reported as a full
  buffer; `UartDma.SameReportsIff` says this is the only difference.
- CRC: a hit whose handle is not initialised is refused
  (`CrcCache.FirstUpdateMayBeRefused`), one whose inversion modes differ from the
  engine's remembers the mirror image of the right value
  (`CrcCache.RefusedWidthSpoilsValue`), and one after a reset of any context starts
  from the engine's initial value (`CrcCache.ResetHarmlessIff`).
  `CrcCache.AlwaysSameIff` is the exact condition.
- Delay: a whole SysTick period between two samples goes unseen. A sample is right
  exactly when it comes at most `reload` cycles after the one before
  (`UsDelay.GainExactIff`). The tick count is exact if and only if `us * reload` fits
  32 bits.
- PWM: the getter is exact if and only if its product fits 32 bits.
- Sleep: the ticks returned are the exact total rounded down if and only if no
  conversion overflows (`PmTicks.NoDriftIff`).
- Encoder: an update served late may be counted the wrong way
  (`PulseEncoder.LateUpdateLosesTwoPeriods`) or not (`PulseEncoder.LateButRight`);
  `PulseEncoder.Encoder.UpdateIsr` says when a service leaves the count right. The
  reader multiplies wraps by ARR instead of ARR + 1; `PulseEncoder.ReportedIff` says
  when its report is right.
- SPI: a transfer failing before the last one sends all later ones to other places
  (`SpiChunks.TransfersIdealIff`).
- GPIO: detaching an enabled pin leaves its line enabled without a handler
  (`PinIrq.DetachLeavesLineEnabled`); `PinIrq.EnabledPinsAreHandledIff` says that
  this is the only way to get there.

## Model

| member | source | states |
|---|---|---|
| OnChipFlash.Flash.WriteFrom | bootLoader/drivers/drv_flash_f4.c:210-297 | for every address and size, the loop with its exits is `FlashWrite` on the contents and the call count |
| OnChipFlash.WriteResult | bootLoader/drivers/drv_flash_f4.c:210-297 | for every address and size: the size comes back, as an int, if and only if the 32-bit sum passes the check, the size is not 0, every program of the tiling is OK, no bit must be set and what is outside the flash echoes; the part in the flash then holds the buffer; flash bytes outside the range never change |
| OnChipFlash.WriteInside | bootLoader/drivers/drv_flash_f4.c:210-297 | the same for a range in the flash, byte by byte: old & new == new |
| OnChipFlash.WriteSucceedsIff | bootLoader/drivers/drv_flash_f4.c:232-287 | the loop succeeds exactly under that condition, with one program for each unit |
| OnChipFlash.WriteKeeps | bootLoader/drivers/drv_flash_f4.c:232-287 | however a write ends, the verified prefix equals the buffer, and all flash bytes outside the range, past the failed unit or written with 0xFF are untouched |
| OnChipFlash.WriteOnlyClears | bootLoader/drivers/drv_flash_f4.c:232-287 | however a write ends, no bit has gone from 0 to 1 |
| OnChipFlash.GreedyTiles | bootLoader/drivers/drv_flash_f4.c:234-286 | the programs are naturally aligned and cover the range without gap or overlap |
| OnChipFlash.GreedyIsFewest | bootLoader/drivers/drv_flash_f4.c:234-286 | no tiling of the range by aligned 1, 2 and 4 byte units has fewer programs |
| OnChipFlash.TilingBound | bootLoader/drivers/drv_flash_f4.c:234-286 | at most size/4 + 3 programs |
| OnChipFlash.SectorMap | bootLoader/drivers/drv_flash_f4.c:58-117 | GetSector names the sector whose range holds the address, for all 12 sectors |
| OnChipFlash.Flash.EraseRange | bootLoader/drivers/drv_flash_f4.c:309-360 | for every address and size, the method is `FlashErase` on the contents and the call count |
| OnChipFlash.Flash.EraseSectors | bootLoader/libraries/STM32F4xx_HAL_Driver/Src/stm32f4xx_hal_flash_ex.c:198-214 | sectors are erased in order up to the first failure; the sum that ends the loop wraps around |
| OnChipFlash.EraseResult | bootLoader/drivers/drv_flash_f4.c:309-360 | for every address and size: refused ranges, the sectors erased, the result, and that all other sectors stay |
| OnChipFlash.EraseExact | bootLoader/drivers/drv_flash_f4.c:309-360 | a successful erase of a range in the flash sets to 0xFF exactly the sectors meeting the range; even a failed one leaves all others alone |
| OnChipFlash.SafeIff | bootLoader/drivers/drv_flash_f4.c:388-417 | an operation on the 128 KB device leaves the bytes below 0x08020000 alone, on every chip and whatever fails, if and only if it is refused, erases no sector of theirs and means no byte but 0xFF for them |
| OnChipFlash.ReachedByWrappingOnly | bootLoader/drivers/drv_flash_f4.c:315-337 | from offsets of 0 and more, erases reach them exactly if the sum wraps to at most the end of the flash from a start behind it, and writes only if they are longer than the way round |
| OnChipFlash.WrappedEraseTakesBootLoader | bootLoader/drivers/drv_flash_f4.c:315-337 | the erase from 0x7FFFFFFF of 0x80000000 bytes |
| OnChipFlash.BootLoaderUntouched | bootLoader/drivers/drv_flash_f4.c:388-417 | no sequence of operations that are safe in this sense, failing or not, changes a byte below 0x08020000 |
| OnChipFlash.InstallRoundTrip | bootLoader/drivers/drv_flash_f4.c:388-417 | whatever the HAL does: if every nonempty chunk's write returns its length, reading the range returns the image |
| OnChipFlash.InstallSucceeds | bootLoader/drivers/drv_flash_f4.c:388-417 | after an erase, with a HAL that works, the writes do return their lengths, however the image is cut |
| OnChipFlash.Flash.Write128K | bootLoader/drivers/drv_flash_f4.c:401-404 | the device write is the flash write at the 32-bit sum of start and offset |
| OnChipFlash.Flash.Erase128K | bootLoader/drivers/drv_flash_f4.c:414-417 | the device erase is the flash erase there |
| OnChipFlash.Flash.ReadInto | bootLoader/drivers/drv_flash_f4.c:181-197 | for every address and size, the buffer becomes the bytes of the range, or -1 and nothing changes |
| EthernetDma.Ring.CopyChain | bootLoader/drivers/drv_eth.c:204-251 | the chain lies in the ring as its segments; ERR_USE if and only if a needed buffer belongs to the DMA; no such buffer is written even then |
| EthernetDma.Ring.Transmit | bootLoader/drivers/drv_eth.c:192-283 | after a transmit of a frame that fits the ring the DMA reads exactly the concatenated payloads; the buffers handed over are those filled, all others are unchanged; the first of them is marked as the first if and only if the frame fits |
| EthernetDma.Ring.TransmitFrame | bootLoader/libraries/STM32F4xx_HAL_Driver/Src/stm32f4xx_hal_eth.c:892-997 | which descriptors are handed over, with which lengths and marks |
| EthernetDma.SegmentsAreTheFrame | bootLoader/drivers/drv_eth.c:204-251 | segments in order are the frame, all but the last full |
| EthernetDma.BufferCountIsSegments | bootLoader/libraries/STM32F4xx_HAL_Driver/Src/stm32f4xx_hal_eth.c:926-937 | the HAL hands over as many buffers as the driver filled |
| EthernetDma.HopsDiffer | bootLoader/libraries/STM32F4xx_HAL_Driver/Src/stm32f4xx_hal_eth.c:566-575 | within one lap of the ring no descriptor comes twice |
| EthernetDma.Ring.LoseOverlongFrame | bootLoader/drivers/drv_eth.c:204-278 | a frame of one full buffer more than the ring has is sent with success, without a first mark and without its first segment |
| EthernetDma.Ring.GetReceivedFrame | bootLoader/libraries/STM32F4xx_HAL_Driver/Src/stm32f4xx_hal_eth.c:1085-1153 | the scan, over one call or several, finds a frame exactly when all of it has arrived, with its first descriptor, number of segments and length |
| EthernetDma.Ring.Receive | bootLoader/drivers/drv_eth.c:286-385 | a frame of which a part is missing changes nothing; a whole one is received by any chain of its length, looking at no more buffers than it fills, exactly SegCount descriptors go back to the DMA, and the scan stands behind it |
| EthernetDma.Ring.GatherInto | bootLoader/drivers/drv_eth.c:326-352 | the copy loops fill the chain with the frame |
| EthernetDma.Ring.ReleaseBuffers | bootLoader/drivers/drv_eth.c:356-363 | exactly SegCount descriptors get their OWN bit, the rest is unchanged |
| EthernetDma.Ring.ReceivedWithChecksum | bootLoader/libraries/STM32F4xx_HAL_Driver/Src/stm32f4xx_hal_eth.c:1134-1138 | a checksum stored behind a frame leaves the frame where the driver reads it |
| EthernetDma.Loopback | bootLoader/drivers/drv_eth.c:204-366 | transmit, wire and receive preserve the bytes for chains cut differently and rings of different geometry |
| UartDma.DmaRxV2.DmaRecvIsr | bootLoader/drivers/drv_usart_v2.c:383-425 | the cursor stands for the bytes accounted for; each handler reports all new bytes or none, except transfer-complete with nothing new, which reports a full buffer; after an overrun a report is right but for whole buffers |
| UartDma.LengthIsMeant | bootLoader/drivers/drv_usart_v2.c:396-416 | the same about the lengths, for any counts of received and accounted bytes |
| UartDma.AccountOfRun | bootLoader/drivers/drv_usart_v2.c:383-426 | over any run without overrun, reports move with the bytes accounted for, plus a full buffer for each spurious transfer-complete |
| UartDma.ConservedIff | bootLoader/drivers/drv_usart_v2.c:383-426 | reports and unreported bytes equal the bytes received if and only if no transfer-complete was spurious |
| UartDma.EveryByteReportedOnce | bootLoader/drivers/drv_usart_v2.c:1064-1069 | with transfer-complete served before any IDLE, every byte is reported once |
| UartDma.IdleAfterWrapMakesCompleteSpurious | bootLoader/drivers/drv_usart_v2.c:398-412 | IDLE just after a wrap, then transfer-complete: the second report is a full buffer too much |
| UartDma.SpuriousBufferExample | bootLoader/drivers/drv_usart_v2.c:398-412 | a run from the start with 5 bytes received and 9 reported |
| UartDma.DmaRxV1.DmaIsr | bootLoader/drivers/drv_usart.c:695-725 | it reports the new bytes, of which there are a buffer at most, if and only if the end of the buffer has been passed exactly when the DMA stands there; everything is then accounted for |
| UartDma.DmaRxV1.UartIsrIdle | bootLoader/drivers/drv_usart.c:616-630 | it reports the new bytes if and only if the end of the buffer has not been passed |
| UartDma.SameReportsIff | bootLoader/drivers/drv_usart.c:619-723 | with transfer-complete served at the wrap the cursors mirror each other, and both drivers report the same lengths if and only if no half-transfer is served at the wrap |
| CrcCache.ReverseBitMirrors | bootLoader/drivers/drv_crypto.c:35-44 | bit i of the result is bit 31 - i of the argument |
| CrcCache.ReverseBitTwice | bootLoader/drivers/drv_crypto.c:35-44 | it is its own inverse |
| CrcCache.CrcDriver.Update | bootLoader/drivers/drv_crypto.c:47-158 | the method is `Cached` on contexts, backup and engine; a refused update returns 0; any other has fed the data to the engine, and returns its register, mirrored if the output is inverted and flipped where xorout has a 1, or 0 for 0 |
| CrcCache.UpdateResult | bootLoader/drivers/drv_crypto.c:139-151 | bit by bit, what an update returns and what value it remembers |
| CrcCache.UpdateFeedsEngine | bootLoader/drivers/drv_crypto.c:58-131 | on a hit the engine goes on from its own register, on a miss from the remembered value with the set-up of the configuration; no other context changes |
| CrcCache.RefusedUpdate | bootLoader/drivers/drv_crypto.c:84-130 | a hit with a handle that is not ready, or a miss with flags or a width that have no case, returns 0 and leaves engine and backup alone |
| CrcCache.CrcDriver.ResetContext | bootLoader/drivers/drv_crypto.c:621-633 | the shared data register gets its initial value; the backup stays |
| CrcCache.CrcDriver.DestroyContext | bootLoader/drivers/drv_crypto.c:524-538 | the same, and the handle is not ready any more |
| CrcCache.AccumulateKeepsInStep | bootLoader/drivers/drv_crypto.c:139-151 | the remembered value is the raw register, so the backup still names what is loaded |
| CrcCache.SameAsAlwaysInitIff | bootLoader/drivers/drv_crypto.c:58-125 | one update equals an always initialising one, in result and in what is remembered, if and only if it misses, or its handle fits the engine and the engine makes the same of its register as of the remembered value |
| CrcCache.AlwaysSameIff | bootLoader/drivers/drv_crypto.c:58-125 | it does for every engine and all data if and only if it misses or its handle is ready with the engine's modes and the register holds the remembered value |
| CrcCache.CacheIsTransparent | bootLoader/drivers/drv_crypto.c:47-158 | the same for any interleaving of updates, reconfigurations, resets and destructions whose hits meet that condition |
| CrcCache.ReadyContextsShareTheEngine | bootLoader/drivers/drv_crypto.c:47-158 | any interleaving of updates on ready contexts with flags 0 or both: same results, same values |
| CrcCache.FirstUpdateMayBeRefused | bootLoader/drivers/drv_crypto.c:127-130 | a hit by a context never initialised returns 0 and does nothing |
| CrcCache.RefusedWidthSpoilsValue | bootLoader/drivers/drv_crypto.c:69-113 | an update refused for its width leaves a handle that hits with wrong modes and remembers the mirror image of the value |
| CrcCache.ResetHarmlessIff | bootLoader/drivers/drv_crypto.c:621-633 | after a reset of any context the next hit is unaffected if and only if the engine's initial value is the remembered one |
| PinIrq.PinDriver.AttachIrq | bootLoader/drivers/drv_gpio.c:308-346 | the method is `DoAttach`, 16-bit fields included |
| PinIrq.PinDriver.DetachIrq | bootLoader/drivers/drv_gpio.c:348-377 | the method is `DoDetach` |
| PinIrq.DetachFreesSlot | bootLoader/drivers/drv_gpio.c:348-377 | a detach succeeds if and only if the port exists; the slot is then free and nothing else has changed |
| PinIrq.PinDriver.EnableIrq | bootLoader/drivers/drv_gpio.c:379-504 | the method is `DoIrqEnable` on mask and lines |
| PinIrq.IrqEnableResult | bootLoader/drivers/drv_gpio.c:379-504 | an enable succeeds if and only if the port exists and the slot is in use, a disable if the port exists; the mask then has the number or not, all else in it and the table stay; a refused call changes nothing |
| PinIrq.MaskIsLastSwitch | bootLoader/drivers/drv_gpio.c:379-504 | over any run, a number is in the mask if and only if the last call that switched it enabled it |
| PinIrq.PinDriver.Bit2BitNo | bootLoader/drivers/drv_gpio.c:285-296 | the number of the only bit set, or -1 if there is no such number |
| PinIrq.PinDriver.Dispatch | bootLoader/drivers/drv_gpio.c:516-538 | an event on a pin calls the handler in the slot of its number, if any |
| PinIrq.LinesFollowPins | bootLoader/drivers/drv_gpio.c:392-497 | after any calls a line is enabled if and only if one of its pins is (0 to 4, 5-9, 10-15), and every slot is free or holds a pin of its number |
| PinIrq.HandlerStays | bootLoader/drivers/drv_gpio.c:326-342 | a slot in use is unchanged by any calls but a detach of that number |
| PinIrq.AttachSucceedsIff | bootLoader/drivers/drv_gpio.c:308-346 | an attach succeeds if and only if the port exists and the slot is free or holds the same registration; the slot then holds it, nothing else changes, and a refused one changes nothing |
| PinIrq.DetachLeavesLineEnabled | bootLoader/drivers/drv_gpio.c:364-376 | detaching an enabled pin leaves its line enabled and its slot free |
| PinIrq.EnabledPinsAreHandledIff | bootLoader/drivers/drv_gpio.c:348-497 | at every moment of a run every enabled pin has a slot in use, if and only if no pin is detached while enabled |
| UsDelay.Delay | bootLoader/drivers/drv_common.c:134-162 | the loop ends, never before the ticks have passed, and the time is right to a period |
| UsDelay.GainExactIff | bootLoader/drivers/drv_common.c:145-154 | a sample adds the true cycles less the reloads in between if and only if it comes at most `reload` cycles after the last |
| UsDelay.PeriodsAreMissed | bootLoader/drivers/drv_common.c:145-154 | what it adds falls short by `reload` for each whole period in between |
| UsDelay.TicksExactIff | bootLoader/drivers/drv_common.c:140 | the tick count is the intended one if and only if the product fits 32 bits |
| UsDelay.CountedIsRealTime | bootLoader/drivers/drv_common.c:140-154 | counting reload for reload + 1 cycles makes the delay right: at most 3 cycles short, a period and a cycle long |
| PwmTimer.Timer.Set | bootLoader/drivers/drv_pwm.c:281-339 | no intermediate is truncated; the prescaler is the smallest that brings the period below MAX_PERIOD ticks, and period and pulse are the largest numbers of prescaled ticks that fit the request, kept in their bounds |
| PwmTimer.SettingsMeaning | bootLoader/drivers/drv_pwm.c:312-332 | the same for the exact settings, for every request and clock |
| PwmTimer.SettingsFit | bootLoader/drivers/drv_pwm.c:311-332 | prescaler, period and pulse are in range for every request and clock |
| PwmTimer.NoUpperClamp | bootLoader/drivers/drv_pwm.c:323-331 | a pulse up to the period is never cut to it |
| PwmTimer.Timer.Get | bootLoader/drivers/drv_pwm.c:236-279 | each time is that of its register if and only if the product fits 32 bits; a period that was set is not read as longer, nor as shorter by a prescaled tick and a nanosecond |
| PwmTimer.ReadBackExactIff | bootLoader/drivers/drv_pwm.c:274-276 | the getter is exact if and only if its product fits 32 bits |
| PwmTimer.PeriodRoundTrip | bootLoader/drivers/drv_pwm.c:273-321 | a period set and read back is not longer, and shorter by less than a prescaled tick and a nanosecond |
| CanFilter.FilterWordIsMailboxWord | bootLoader/drivers/drv_can.c:355-389 | the first filter word equals the mailbox word of the item's identifier, cut to the bits that fit |
| CanFilter.MailboxWordInjective | bootLoader/drivers/drv_can.c:510-541 | different identifiers have different mailbox words |
| CanFilter.MaskAcceptsIff | bootLoader/drivers/drv_can.c:355-389 | mask mode accepts a frame if and only if kind and masked identifier bits agree |
| CanFilter.ListAcceptsIff | bootLoader/drivers/drv_can.c:355-389 | list mode accepts exactly the two listed identifiers |
| CanFilter.CanDriver.SetFilter | bootLoader/drivers/drv_can.c:329-393 | an item that asks for a bank configures that bank, one that asks for none the bank of its index, unless a later item takes it; no other bank changes |
| CanFilter.CanDriver.SendIdent | bootLoader/drivers/drv_can.c:510-556 | the mailbox holds the word and the transmit request |
| CanFilter.CanDriver.SetAndSend | bootLoader/drivers/drv_can.c:329-556 | a configured bank takes a sent message if and only if its item means it |
| PmTicks.TickConverter.OsTickFromPmTick | bootLoader/drivers/drv_pm.c:153-165 | quotient and carried remainder; the step is exact if and only if the sum fits 32 bits |
| PmTicks.AccountBalances | bootLoader/drivers/drv_pm.c:153-165 | over any series, returned ticks and remainder account for all input but what overflow dropped, which is nothing without overflow and 2^32 at least with one |
| PmTicks.NoDriftIff | bootLoader/drivers/drv_pm.c:153-165 | for any tick rate, the total returned is the floor of the exact total if and only if no conversion overflows |
| PmTicks.TimerStart | bootLoader/drivers/drv_pm.c:173-190 | no timer exactly for "forever"; otherwise the longest count that its limit and the product, cut to 32 bits, allow, and never more than the timeout |
| PmTicks.NeverOversleeps | bootLoader/drivers/drv_pm.c:139-190 | a timed sleep never converts back to more ticks than were asked for |
| PmTicks.SleepsLongEnough | bootLoader/drivers/drv_pm.c:139-190 | without overflow or clamping it is at most one tick short |
| SpiChunks.Spixfer | bootLoader/drivers/drv_spi.c:306-397 | the transfers made; the message length comes back exactly when all work, and then the send buffer, or 0xFF without one, has gone out and the receive buffer holds what came in, in order |
| SpiChunks.IdealTiles | bootLoader/drivers/drv_spi.c:309-326 | transfers are contiguous, 1 to 65535 bytes each, ceil(length / 65535) of them |
| SpiChunks.IdealCarriesBuffer | bootLoader/drivers/drv_spi.c:309-326 | together they carry the buffer in order |
| SpiChunks.TransfersIdealIff | bootLoader/drivers/drv_spi.c:323-377 | the transfers go where they should if and only if none but the last fails |
| PulseEncoder.Encoder.UpdateIsr | bootLoader/drivers/drv_pulse_encoder.c:175-189 | a service leaves the wrap count right if and only if the wraps since the last one, and those missed before, come to one in the direction the timer now counts, or to none if no update waits |
| PulseEncoder.ServiceRightIff | bootLoader/drivers/drv_pulse_encoder.c:178-188 | the same for the step of the timer, when an update waits |
| PulseEncoder.Encoder.ClearCount | bootLoader/drivers/drv_pulse_encoder.c:133-140 | position and report are 0 afterwards; an update that waits still does |
| PulseEncoder.Encoder.GetCount | bootLoader/drivers/drv_pulse_encoder.c:142-147 | the reported count, casts included |
| PulseEncoder.PositionIsLaps | bootLoader/drivers/drv_pulse_encoder.c:89-189 | over any run the position is the counter plus ARR + 1 for each wrap counted, waiting or missed |
| PulseEncoder.ReportedIff | bootLoader/drivers/drv_pulse_encoder.c:142-189 | the wrap count is right if and only if the services missed nothing on balance, and the report is if and only if this error and the wrap count cancel |
| PulseEncoder.ServedInTimeMissesNothing | bootLoader/drivers/drv_pulse_encoder.c:175-189 | with updates served before turning round, wrapping again or clearing, no wrap is missed |
| PulseEncoder.LateUpdateLosesTwoPeriods | bootLoader/drivers/drv_pulse_encoder.c:181-188 | an update served after turning round loses two periods |
| PulseEncoder.LateButRight | bootLoader/drivers/drv_pulse_encoder.c:181-188 | an update served late that is counted rightly |
| PulseEncoder.OneStepBackReportsZero | bootLoader/drivers/drv_pulse_encoder.c:142-147 | at position -1, with everything served in time, the report is 0 |

## Left out

- What a program outside the flash does there (a fault, a store to RAM, the alias of the flash at address 0): it leaves the flash as it is, and an oracle says what it reads back.
- The wait before the first erase or program is taken to succeed.
- The 16 KB and 64 KB FAL devices, which differ from the 128 KB one in their start address only and are not in the device table.
- Flash sectors 12 to 23, which other chips have.
- Frames that the DMA stores with an error, and frames of 16 KB and more. DMA underflow and unavailable flags and their polls are left out too.
- pbuf_alloc is a parameter: the chain it returns, or none.
- HAL_CRC_Init is taken to succeed, and reading the CRC engine to reverse all 32 bits when output inversion is on; STM32F4 builds use a reduced branch of the function with no cache, left out. `memcmp` is field equality: padding bytes of the configuration are not modelled.
- Handles with default polynomial or default initial value, which the driver never creates.
- HAL_GPIO_Init, its pull and edge settings and interrupt priorities.
- Disabling of interrupts: each UART and GPIO handler is one step.
- In the UART laws about runs a byte arriving with a whole buffer unreported is excluded: it overwrites data.
- CAN data bytes, mailbox choice, baud rates and 16-bit filter scale.
- SPI chip select, DMA flags and waiting for the bus; where a transfer goes after a failure is modelled, what it carries there is not.
- Capture and break flags of the encoder interrupt.
- Wrap-around of the encoder's wrap counter at 2^31.
