# Firmware cores, modelled and proved

The firmware reads a controller over Modbus, shows it on an LCD and keeps its settings in an EEPROM and in
flash. This project models its stateful cores in Dafny and proves what each is for: a bit-banged I2C master and
the EEPROM driver on it, a two-page flash log, a Modbus register cache with dirty bits, the Modbus RTU master
and slave with their checksum, the serial queues under them, the settings saver, and the arithmetic of printing,
parsing, the calendar and raster drawing. `dafny verify dfyconfig.toml` checks everything.

Code that changes state step by step is a class whose methods work in place on arrays and fields. Each such
method is proved equal to a function on values, and the lemmas speak of that function: over whole runs, over
every interleaving, or after a crash at any point.

The conventions these functions rest on are stated once more apart from them, in numbers or at known values: the order
of bits and bytes, addresses and function codes, check values, layouts, limits and times.

## How the parts are modelled

**I2C** (`I2cBus`, `I2cMarks`, `I2cSw`, `I2cRuns`, `I2cTransfers`, `I2cProgress`, `I2cMaster`, `EepromDevice`,
`AtEeprom`). Every pin write adds a sample of the two lines to a trace; a line is high when master and slave both let it
be. An independent monitor turns the trace alone into START, bytes with their acknowledge bit, and STOP, as UM10204
sections 3.1.3 to 3.1.6 have it. A slave may change SDA only when SCK falls, so it is a function of the number of falls;
it is otherwise arbitrary. The end marks are 32-bit shifts by the whole position, whose result C leaves open beyond 31:
those results are a parameter. The decoded transfers are proved for every sequence of up to 128 bytes, address bytes
included, whose marks come out right; `EndedIff` says exactly when they do, which is always up to 32 bytes. The guard on
the size counts one byte beside the data although two or three are added, and the copy to a caller that finds the bus
done has no guard; `CallStaysIff` says exactly which calls stay in the buffers, and `LongWriteOverruns` and
`LongReadOverruns` show two that do not. The change of state restarts the toggle count, so the first half pulse after
START is played twice; hence 19n + 6 ticks and not 19n + 5. The polling loops of the EEPROM driver end for every slave;
a yield may be shorter than a tick, as long as time goes on. A register's high byte falls into the device address, and
the device model covers all 65536 registers.

**Flash** (`FlashLog`, `FlashRecovery`, `FlashRuns`, `Storage`, `StorageSystem`, with the checksum in `Crc` and
`CrcPairs`). A page is an array of bytes that erase to ones and are programmed by clearing bits. Every program or erase
call is atomic, and a crash may come between any two. The record checksum has eight bits in a 16-bit field, so an erased
field never matches. The code computes the checksum of a record inside the initializer of that record; the model takes
it to be the checksum of the initialized data. The header reader looks at the checksum and not at the magic number, and
so does the model. A crash between the header of a new page and the end of the callback loses parameters:
`CrashAtomicIff` states exactly which crashes leave neither the old map nor the new one, and `ParameterLost` shows one.

**Modbus** (`Octets`, `BitNumbers`, `CrcBits`, `Crc`, `CrcTables`, `Modbus`, `ModbusExchange`, `ModbusDrivers`,
`ModbusSystem`, `UartModel`, `Uart`). Frames are byte sequences; what the line carries is a parameter. The write
callback is a predicate that accepts or refuses; accepted values are stored. The serial queue is one class for both
directions and both ports. Where the code trusts a count, the methods demand that it be right and a lemma says exactly
when it is: `InBufferIff`, `WriteFrameFits`, `DecodedIsFresh`.

**Register cache** (`CommModel`, `CommTiles`, `InterComm`). The communication loop and the setter are two tasks; the
setter may run at every preemption point. `InterCommDataSet` is one step, and so is the test and store of one received
register. `SetWindow` and `StoreWindow` state exactly what is lost where the code allows a switch inside them. A failed
write may have been carried out all the same, and after five failures the frame is given up: a register is then lost
exactly if none of the five was heard, nobody set it again and the slave lacked its value. Only this master changes the
slave.

**Saver** (`SaverModel`, `SaverSteps`, `AppData`). The model starts after the restore. Any task may set items between
looking at a flag, clearing it, reading the value and writing it; `SaverSteps` also lets the saver run between the three
steps of a set, and setters between the steps in which the saver watches for changes. Ticks are 32-bit and wrap.

**Printing, calendar, drawing** (`Numbers`, `Ustdlib`, `Formats`, `Calendar`, `LcdModel`, `LcdDriver`). `unsigned long`
has 32 bits. The documentation of `uvsnprintf` promises small letters for hexadecimal digits, and the code has capital
ones (`DigitCharIs`). It promises a count independent of room; a minus sign that meets a full buffer is not counted, and
`Usnprintf` states the exact count. Padding a string, the code negates the room instead of taking the padding off;
`BoundedIff` says exactly which formats stay within their room all the same. `ulocaltime` knows only the rule of four
years; `LocalTime` states the exact limit. The frame buffer is one array of 320 by 240 cells.

## Model

| member | source | states |
|---|---|---|
| `I2cSw.TickKeepsSound` | drivers/i2c_sw.cpp:376-516 | whatever the slave drives, a tick leaves every cursor inside its buffer and the toggle count in range |
| `I2cSw.CallStaysIff` | drivers/i2c_sw.cpp:208-256 | a call of any size in any state, the copy to the caller included, stays in the driver's buffers if and only if: on an idle bus it is refused or its sequence has at most 128 bytes; on a done bus it is a write or wants at most 128 bytes; in any other state always |
| `I2cSw.LongWriteOverruns` | drivers/i2c_sw.cpp:218-235 | a write of 127 bytes is accepted and lays its last byte behind the buffer |
| `I2cSw.LongReadOverruns` | drivers/i2c_sw.cpp:248-252 | a read of 129 bytes is refused on an idle bus, and on a done bus copies from behind the receive buffer |
| `I2cSw.EndedIff` | drivers/i2c_sw.cpp:192-206 | the end marks are right for up to 32 bytes, and beyond exactly if the last byte's shift meets none of those before it and, for a read, is not zero |
| `I2cSw.ZeroShifts` | drivers/i2c_sw.cpp:192-206 | where longer shifts give zero, every write ends right and a read exactly up to 32 bytes |
| `I2cSw.StopKeepsSound` | drivers/i2c_sw.cpp:63-81 | stopping and resuming at any time keep every cursor in its buffer |
| `I2cSw.StoppedStays` | drivers/i2c_sw.cpp:63-81 | a stopped bus stays stopped, and no call is answered with anything new, until it is resumed |
| `I2cMarks.MarkSets` | drivers/i2c_sw.cpp:192-206 | or-ing the shifted one of any of the 128 bytes into its word marks exactly the bytes whose shift it meets |
| `I2cMarks.MeetsBelow` | drivers/i2c_sw.cpp:192-206 | a byte below 32 meets itself and no other |
| `I2cBus.LowHalf` | drivers/i2c_sw.cpp:298-327 | lowering SCK and then moving SDA shows the monitor one more data bit and no condition |
| `I2cBus.FrameEnds` | drivers/i2c_sw.cpp:469-471 | the fall after the ninth pulse completes a byte with its acknowledge bit and nothing else |
| `I2cBus.ConditionsAre` | drivers/i2c_sw.cpp:432-499 | SDA falling while SCK is high is START, rising STOP, and moving while SCK is low nothing |
| `I2cBus.FirstBitIsHighest` | drivers/i2c_sw.cpp:298-359 | the number of a byte is that of its bits on the line, the first the most significant |
| `I2cRuns.SendByte` | drivers/i2c_sw.cpp:298-327 | nineteen ticks show exactly the byte on the line with the acknowledge bit the slave gave, record a refusal as an error and choose the next state |
| `I2cRuns.ReadByte` | drivers/i2c_sw.cpp:330-359 | nineteen ticks store the byte the slave drove, answer it with NACK only at an end mark, and leave the accumulator zero |
| `I2cRuns.StartTicks` | drivers/i2c_sw.cpp:432-446 | from a free bus or between bytes, three ticks show START and nothing else |
| `I2cRuns.StartClock` | drivers/i2c_sw.cpp:446-455 | the half pulse played twice is not visible on the lines |
| `I2cRuns.StopTicks` | drivers/i2c_sw.cpp:484-499 | two ticks show STOP, free the bus and hand over the received bytes |
| `I2cTransfers.SendBytes` | drivers/i2c_sw.cpp:446-482 | a run of bytes is shown in order up to the first refusal, 19 ticks each |
| `I2cTransfers.HearBytes` | drivers/i2c_sw.cpp:457-482 | a run of received bytes fills consecutive cells with what the slave drove; all but the last are acknowledged |
| `I2cTransfers.WriteTransfer` | drivers/i2c_sw.cpp:208-516 | every write of up to 128 bytes whose marks are right decodes to START, address and W, register, data up to the first NACK, STOP, in exactly 19n + 6 ticks for n bytes sent, with the error saying whether one was refused |
| `I2cTransfers.AllAcknowledged` | drivers/i2c_sw.cpp:321-324 | a slave that acknowledges every byte gets all of them, none refused |
| `I2cTransfers.ReadTransfer` | drivers/i2c_sw.cpp:208-516 | every acknowledged read of up to 128 bytes whose marks are right decodes to START, address and W, register, repeated START, address and R, the bytes with ACK on all but the last, STOP, in exactly 19n + 10 ticks, and the receive buffer holds exactly the bytes the slave drove |
| `I2cTransfers.ReadRefused` | drivers/i2c_sw.cpp:469-482 | a read whose address or register byte is refused shows just that, stops at once and reports it |
| `I2cTransfers.ReadEnds` | drivers/i2c_sw.cpp:469-482 | a read refused at its second address byte, or of no bytes, stops after that byte with the matching error |
| `I2cTransfers.DoneExactlyFrom` | drivers/i2c_sw.cpp:501-516 | once done a transfer stays done, so it is done from one tick on and not before |
| `I2cTransfers.NoErrorOnTheWay` | drivers/i2c_sw.cpp:321-324 | a transfer that ends well shows no error at any tick before |
| `I2cTransfers.PollSees` | drivers/i2c_sw.cpp:241-255 | a caller that polls at any time sees neither an idle bus nor an error, and done exactly after the last tick |
| `I2cProgress.TickProgress` | drivers/i2c_sw.cpp:376-516 | whatever the slave drives, each tick of a transfer under way brings its end nearer |
| `I2cProgress.TransferEnds` | drivers/i2c_sw.cpp:208-516 | whatever the slave drives, a request is done after at most 24 ticks a byte and 26 more, and stays done |
| `I2cMaster.Master.ExecuteWrite` | drivers/i2c_sw.cpp:298-327 | the half pulse of a sent byte as the run model has it |
| `I2cMaster.Master.ExecuteRead` | drivers/i2c_sw.cpp:330-359 | the half pulse of a received byte as the run model has it |
| `I2cMaster.Master.TimeProc` | drivers/i2c_sw.cpp:376-516 | one call of the timer routine on the real buffers is one step of the run the transfer theorems speak of |
| `I2cMaster.Master.MarkAdd` | drivers/i2c_sw.cpp:192-206 | marks the last byte laid out so far, with exactly the bytes its shift meets |
| `I2cMaster.Master.Flush` | drivers/i2c_sw.cpp:179-189 | clears buffers, marks, sizes and error |
| `I2cMaster.Master.Fill` | drivers/i2c_sw.cpp:219-240 | lays out the address, register and data of a request, and exactly the end marks it leaves |
| `I2cMaster.Master.Exec` | drivers/i2c_sw.cpp:208-256 | without the copy out: a request is taken only on an idle bus, one of 128 bytes or more is an overflow error, a done bus becomes idle; demanded is exactly that the sequence fits |
| `I2cMaster.Master.BusStop` | drivers/i2c_sw.cpp:63-69 | the bus is stopped from any state, and nothing else changes |
| `I2cMaster.Master.BusResume` | drivers/i2c_sw.cpp:72-81 | a stopped bus becomes idle, any other stays as it is |
| `I2cMaster.Master.RegWrite` | drivers/i2c_sw.cpp:259-263 | a write request through the same entry |
| `I2cMaster.Master.RegRead` | drivers/i2c_sw.cpp:266-270 | a read request; when found done, exactly the received bytes reach the caller's buffer; demanded is exactly that the call stays in the driver's buffers and the copy in the caller's |
| `EepromDevice.WriteEffect` | drivers/at_eeprom.c:69-82 | for all registers, a word write changes exactly the words of the registers it hits: those that agree in bits 0 to 6 and 8, if the device answers at all |
| `EepromDevice.WordsIndependent` | drivers/at_eeprom.c:54 | writing one register always leaves another alone exactly when it does not hit it |
| `EepromDevice.CellsMeet` | drivers/at_eeprom.c:54 | two registers share their memory cells exactly when they agree in bits 0 to 6 and 8 |
| `EepromDevice.ReadNoticed` | drivers/at_eeprom.c:48-66 | a word read, seen by the device, changes none of its memory |
| `EepromDevice.LowRegisters` | drivers/at_eeprom.c:54 | below 256, to hit is to agree modulo 128 |
| `EepromDevice.WriteNumbers` | drivers/at_eeprom.c:69-82 | in numbers, for every register and value: a word write shows 0xA0 for registers below 256, twice the register modulo 256, the value divided by 256 and its remainder |
| `EepromDevice.ReadNumbers` | drivers/at_eeprom.c:48-66 | a word read shows 0xA0, twice the register modulo 256, a second START and 0xA1, and the two bytes driven, the second refused |
| `AtEeprom.WordWrite` | drivers/at_eeprom.c:69-82 | an acknowledged word write takes 82 ticks and shows exactly one word write on the bus |
| `AtEeprom.WordRead` | drivers/at_eeprom.c:48-66 | an acknowledged word read takes 105 ticks and delivers the two bytes driven |
| `AtEeprom.WriteOutcome` | drivers/at_eeprom.c:69-82 | whenever the polling of an acknowledged write ends, exactly that write has been shown and the bus is idle again |
| `AtEeprom.ReadOutcome` | drivers/at_eeprom.c:48-66 | whenever the polling of an acknowledged read ends, exactly that read has been shown and the buffer holds the word driven |
| `AtEeprom.ServedNumber` | drivers/at_eeprom.c:48-66 | every slave that acknowledges a word read serves the word that is 256 times the first byte it drives plus the second |
| `AtEeprom.RefusalIsSeen` | drivers/at_eeprom.c:48-82 | a transfer that ends with an error never looks well done to a caller that polls at any time |
| `AtEeprom.RefusedReadOutcome` | drivers/at_eeprom.c:48-66 | a read the slave refuses at any of the three bytes sent ends in an error, whenever the polling ends |
| `AtEeprom.RefusalAnswersNext` | drivers/at_eeprom.c:48-82 | after a refused byte each further call is over at once without a transfer, until one has found the bus done; the next one then starts afresh |
| `AtEeprom.Eeprom.ByteWrite16` | drivers/at_eeprom.c:69-82 | from any state but a stopped bus and for any slave the polling ends, at once after an error not yet taken and otherwise at the end of the transfer or with an error; acknowledged on an idle bus, exactly one word write is seen |
| `AtEeprom.Eeprom.RandRead16` | drivers/at_eeprom.c:48-66 | the same, answered with all ones after an error and with the first two received bytes otherwise; refused at any byte on an idle bus it is all ones, acknowledged the word the slave drove, with exactly one word read seen |
| `AtEeprom.Eeprom.WriteThenRead` | drivers/at_eeprom.c:48-82 | a word written and any word read back from the device give the new value for the registers the write hits and the old word for all others |
| `FlashLog.SumNotErased` | drivers/storage.cpp:190-201 | a computed checksum never equals the erased field 0xFFFF |
| `FlashLog.OneByteBad` | drivers/storage.cpp:155-201 | a good record with any one of its six data bytes changed is never read |
| `FlashLog.OddChangeBad` | drivers/storage.cpp:155-201 | nor with an odd number of its 48 data bits changed |
| `FlashLog.TwoBitsBad` | drivers/storage.cpp:155-201 | nor with any two bits of different bytes changed |
| `FlashLog.SevenTurnsSix` | drivers/storage.cpp:155-204 | value 7 under parameter 1 is stored with checksum 10, and turned into 6 it is not read |
| `FlashLog.PartialIs` | drivers/storage.cpp:217-220 | value, parameter and checksum come in this order, and what is missing is ones |
| `FlashLog.ScanIsLookup` | drivers/storage.cpp:155-185 | the scan of a page returns the map entry of the parameter, all ones when there is none |
| `FlashLog.RecordSteps` | drivers/storage.cpp:217-220 | after k of the three calls an erased cell holds the record's first k fields and ones elsewhere |
| `FlashRecovery.AppendCommits` | drivers/storage.cpp:210-226 | a completed record extends the used prefix by one and overrides exactly its parameter, for every parameter and value |
| `FlashRecovery.AppendCrashes` | drivers/storage.cpp:210-226 | a record without its checksum is invisible and leaves the page a used prefix and an empty rest |
| `FlashRecovery.FilledStores` | drivers/storage.cpp:190-257 | after any number of calls of a series of writes, exactly the records whose third call was made are stored |
| `FlashRecovery.SaveInPlace` | drivers/storage.cpp:209-226 | a crash at any call of a save leaves every parameter at its old value; only the last call commits the new one; the other page is untouched |
| `FlashRecovery.SaveWithSwap` | drivers/storage.cpp:228-256 | a swap cut short before the header checksum leaves the old page active and whole; afterwards the new page is active with the next epoch and holds exactly the completed records; the old page is never touched |
| `FlashRecovery.RestartSelects` | drivers/storage.cpp:262-297 | a restart selects the page with the strictly greatest valid epoch and programs nothing |
| `FlashRecovery.FirstStart` | drivers/storage.cpp:270-281 | the first start formats page 0 and starts over when cut short |
| `FlashRecovery.EpochNumber` | drivers/storage.cpp:107-150 | the header holds the epoch as a 16-bit number in two's complement |
| `FlashRecovery.RestartAfterSwap` | drivers/storage.cpp:228-297 | after a whole swap a restart finds the new page exactly if the old epoch was below 32767 |
| `FlashRuns.EventKeepsHealthy` | drivers/storage.cpp:190-297 | any save, or crash at any call and restart, leaves one tidy active page with the strictly greatest epoch |
| `FlashRuns.EventKeepsMap` | drivers/storage.cpp:190-297 | outside the re-save window the stored map is unchanged or changed by exactly this save |
| `FlashRuns.EventLeaves` | drivers/storage.cpp:190-297 | every save, and every crash at any call, leaves exactly the save, the old map or, in the window, the parameters saved again so far |
| `FlashRuns.WindowLoses` | drivers/storage.cpp:228-256 | in the window the save is complete exactly if every parameter the callback saves was saved again already, and otherwise the old map is kept only if nothing was stored and nothing is stored yet |
| `FlashRuns.CrashAtomicIff` | drivers/storage.cpp:190-297 | for every callback that saves what the new map has, parameters once or often: a crash leaves the old map or exactly the new one if and only if it falls outside the window, or nothing was stored and nothing is stored yet, or everything was saved again already |
| `FlashRuns.CrashAtomicOnce` | drivers/storage.cpp:190-297 | with a callback that saves each parameter once and not the written one again, the third case never occurs |
| `FlashRuns.DistinctAgrees` | drivers/storage.cpp:228-256 | such a callback saves nothing but what the new map has |
| `FlashRuns.LateCrash` | drivers/storage.cpp:228-256 | a full page holding one parameter, and a save of another cut short once the new header counts: nothing is stored any more |
| `FlashRuns.ParameterLost` | drivers/storage.cpp:228-256 | with numbers: parameter 1 held 7 and reads as never written after the restart |
| `FlashRuns.EpochRunsOver` | drivers/storage.cpp:228-297 | a full page of epoch 32767 is found again after a whole swap, and the save is gone |
| `FlashRuns.RunRefinesMap` | drivers/storage.cpp:155-297 | over any run of saves, swaps, crashes at any call and restarts, the store is exactly the map each event leaves in turn |
| `FlashRuns.RunKeepsCommits` | drivers/storage.cpp:155-297 | without a crash in the window that map is the old one overlaid with the completed saves in order |
| `FlashRuns.SwapEndsIff` | drivers/storage.cpp:228-256 | a save on a full page comes to an end exactly when the callback saves at most 2046 parameters |
| `FlashRuns.SavesForever` | drivers/storage.cpp:228-256 | a longer callback makes page swaps recur without end |
| `FlashRuns.SwapNeverEnds` | drivers/storage.cpp:228-256 | with numbers: a full page and a callback of 2047 saves take more swaps than any number |
| `Storage.Store.ProgramWord` | drivers/storage.cpp:217 | clearing bits of four bytes in place is the word step of the log |
| `Storage.Store.ProgramHalf` | drivers/storage.cpp:219 | the same for the parameter field |
| `Storage.Store.ProgramSum` | drivers/storage.cpp:220 | the same for the checksum field |
| `Storage.Store.EraseSector` | drivers/storage.cpp:238-240 | all bytes of one page become ones, the other page stays |
| `Storage.Store.IsBlockEmpty` | drivers/storage.cpp:90-102 | true exactly for an erased cell |
| `Storage.Store.HeaderRead` | drivers/storage.cpp:107-125 | the signed epoch of a good header, minus one otherwise |
| `Storage.Store.HeaderWrite` | drivers/storage.cpp:130-150 | exactly the three calls that write a sealed header |
| `Storage.Store.Read` | drivers/storage.cpp:155-185 | the value of the last completed write of the parameter on the active page |
| `Storage.Store.FindEmpty` | drivers/storage.cpp:206-213 | the first empty block, or the end of the page |
| `Storage.Store.SwapPages` | drivers/storage.cpp:228-250 | exactly the erase, header and first record of a swap, on the other page |
| `Storage.Store.SaveAll` | drivers/storage.cpp:252-256 | the callback's saves go one behind the other on the new page and never swap again |
| `Storage.Store.Write` | drivers/storage.cpp:190-257 | exactly the flash calls the crash theorems speak of, in order |
| `Storage.Store.Init` | drivers/storage.cpp:262-297 | selects the page of greatest epoch, or formats page 0 when there is none |
| `StorageSystem.WriteThenRead` | drivers/storage.cpp:155-297 | a parameter written, a restart and any parameter read: the written value, or what the other one had, across a swap too |
| `Storage.BlockLayout` | drivers/storage.cpp:22-58 | block c is the eight bytes at 8c of a page of 16384: value, parameter and checksum, each with its lowest byte first |
| `Storage.HeaderBegins` | drivers/storage.cpp:130-139 | a header begins with the characters STRG |
| `CrcTables.TablesDivide` | lib/crc.c:7-55 | every pair of table entries is the remainder of its index after eight bits of division by the reflected 0xA001 |
| `CrcBits.StepLinear` | lib/crc.c:58-71 | a division step of a sum is the sum of the steps |
| `CrcBits.EightStepsSplit` | lib/crc.c:58-71 | eight steps use up the lower byte and move the upper one down, which is why a table of 256 entries will do |
| `Crc.TableStep` | lib/crc.c:64-69 | one turn of the two-table loop is one byte of bit-by-bit division |
| `Crc.Crc16Ibm` | lib/crc.c:58-71 | the loop computes the bit-by-bit remainder for every length |
| `Crc.AppendedCrcVanishes` | drivers/modbus_master.c:162-165 | a frame followed by its CRC, low byte first, leaves residue zero |
| `Crc.DifferenceStays` | lib/crc.c:58-71 | different remainders stay different under any common tail |
| `Crc.BurstIsSeen` | lib/crc.c:58-71 | changing one or two adjacent bytes of a frame always changes its CRC |
| `Crc.Check16` | lib/crc.c:58-71 | the CRC of the digits 1 to 9 is 0x4B37 |
| `Crc.Crc8Dallas` | lib/crc.c:84-97 | the byte loop computes the bit-by-bit remainder by 0x31 |
| `Crc.Check8` | lib/crc.c:74-97 | the checksum of the digits 1 to 9 is 0xF7, as the source says |
| `Crc.ByteIsSeen8` | lib/crc.c:84-97 | changing any one byte always changes the checksum |
| `Crc.ParityKept` | lib/crc.c:74-97 | the checksum has the parity of the data, so any odd number of wrong bits is seen |
| `CrcPairs.TwoBitsSeen8` | lib/crc.c:74-97 | any two wrong bits of different bytes less than 127 apart are seen |
| `Crc.DifferenceStays8` | lib/crc.c:84-97 | different remainders stay different under any common tail |
| `Crc.AppendedCrcVanishes8` | lib/crc.c:84-97 | data followed by its checksum leaves zero |
| `Modbus.WordsRoundTrip` | drivers/modbus_slave.c:26-40 | registers laid out high byte first by one side are what the other side reads |
| `Modbus.ReadRequestBytes` | drivers/modbus_master.c:205-230 | in numbers: a read request is the address, 3, and register and count with the high byte first |
| `Modbus.WriteRequestBytes` | drivers/modbus_master.c:130-160 | a write request begins with the address, 16, register, count, and the number of bytes |
| `Modbus.WriteRequestValue` | drivers/modbus_master.c:152-158 | then the values follow, each with its high byte first |
| `Modbus.ReadExample` | drivers/modbus_master.c:205-230 | a request for ten registers, byte by byte with its checksum |
| `Modbus.JudgedBy` | drivers/modbus_master.c:236-270 | exactly which answers are a timeout, a wrong length, a wrong format or good |
| `Modbus.MappedIs` | drivers/modbus_slave.c:150-152 | the test of the first and the last register is that of each register between |
| `Modbus.WrittenAt` | drivers/modbus_slave.c:208-231 | after a series of writes each register holds its own accepted value, and every other register what it held |
| `Modbus.InBufferIff` | drivers/modbus_slave.c:125-256 | a request stays in the slave's 256 bytes exactly if it is refused for its address or names at most 125 registers to read, 126 in a broadcast, or 124 to write; for a read, exactly if the answer fits that is laid out, with its checksum when it is sent |
| `Modbus.WriteFrameFits` | drivers/modbus_master.c:130-165 | the frame of a write stays in the master's 512 bytes exactly up to 251 registers |
| `Modbus.DecodedIsFresh` | drivers/modbus_master.c:245-250 | what is decoded from a reply owes nothing to earlier traffic exactly if the reply is as long as its count says |
| `Modbus.ShortReply` | drivers/modbus_master.c:238-250 | five bytes that pass every check and name a hundred registers |
| `ModbusExchange.ReadExchange` | drivers/modbus_slave.c:125-285 | encode, parse and decode composed: a read of 1 to 125 mapped registers carries exactly their values, an unmapped one an error, and no register changes |
| `ModbusExchange.LongRead` | drivers/modbus_slave.c:125-285 | a read of 126 mapped registers is heeded, and its answer with the checksum has 257 bytes |
| `ModbusExchange.EmptyWrite` | drivers/modbus_slave.c:125-285 | a write that names 125 registers and carries none is heeded, and leaves the buffer |
| `ModbusExchange.WriteExchange` | drivers/modbus_slave.c:125-285 | a write of 1 to 123 registers stores each accepted value in order and touches no other; the master gets Ok exactly when all were mapped and accepted |
| `ModbusExchange.WriteAnswer` | drivers/modbus_slave.c:208-256 | the answer to a write repeats the first six bytes of the request, or refuses with 0x90 and 2 or 3 |
| `ModbusExchange.WriteSingleExchange` | drivers/modbus_slave.c:180-206 | function 6: an accepted value of a mapped register is stored and the request repeated, another refused with 0x86, and no other register changes |
| `ModbusExchange.Refusals` | drivers/modbus_slave.c:125-256 | registers that are not mapped are an illegal address and unknown functions illegal, with the highest bit of the function set |
| `ModbusExchange.ShortestRequest` | drivers/modbus_slave.c:135-138 | two bytes and their checksum are heeded, and nothing shorter |
| `ModbusExchange.Broadcast` | drivers/modbus_slave.c:253-256 | a write to address 0 is carried out and never answered |
| `ModbusExchange.BroadcastRead` | drivers/modbus_slave.c:125-256 | a broadcast read is heeded, answered with nothing and changes nothing, and stays in the buffer exactly up to 126 mapped registers |
| `ModbusExchange.OtherSlave` | drivers/modbus_slave.c:135-138 | a frame for another address changes nothing and times out |
| `ModbusExchange.NoisyRequest` | drivers/modbus_slave.c:135-138 | a request with one or two adjacent bytes changed is never carried out |
| `ModbusExchange.NoisyReply` | drivers/modbus_master.c:238-261 | a reply with one or two adjacent bytes changed is reported as a format error |
| `ModbusDrivers.Slave.ServeRead` | drivers/modbus_slave.c:144-171 | the registers overwrite the request in place, in order |
| `ModbusDrivers.Slave.TakeWrites` | drivers/modbus_slave.c:180-231 | each value is written in turn, and a refusal of any is remembered |
| `ModbusDrivers.Slave.Parse` | drivers/modbus_slave.c:125-260 | the request buffer is rewritten into exactly the specified answer, and the registers change as specified |
| `ModbusDrivers.Slave.Proc` | drivers/modbus_slave.c:263-285 | the answer with its CRC is sent, or nothing |
| `ModbusDrivers.Master.Seal` | drivers/modbus_master.c:162-165 | appends the CRC low byte first |
| `ModbusDrivers.Master.WriteMultipleRegs` | drivers/modbus_master.c:130-202 | sends exactly the encoded request and judges what comes back; a broadcast is Ok at once |
| `ModbusDrivers.Master.Unpack` | drivers/modbus_master.c:245-250 | the registers the count names, decoded from the buffer, fill the front of the caller's array and nothing else of it changes |
| `ModbusDrivers.Master.ReadInputRegs` | drivers/modbus_master.c:205-274 | sends exactly the encoded request and stores registers only from an answer judged Ok, as many as its count names, whether or not the answer carries them |
| `ModbusSystem.Read` | drivers/modbus_master.c:205-274 | both drivers on one line: the caller gets the slave's values and Ok, or MB_ERROR_FUNCTION and an untouched array |
| `ModbusSystem.Write` | drivers/modbus_master.c:130-202 | both drivers on one line: what the slave holds and the caller learns, for its own address, for 0 and for another |
| `UartModel.StepKeepsSound` | drivers/uart1.c:111-192 | at every step a non-empty transmit queue has its interrupt enabled, complete is said only when nothing is left, and no accepted byte is lost or reordered |
| `UartModel.NothingLost` | drivers/uart1.c:111-192 | under any interleaving, bytes for which the queue has room reach the line once each and in order |
| `UartModel.MessageSurvivesIff` | drivers/modbus_master.c:44-59 | from an empty queue a message survives every schedule exactly when it has at most 256 bytes |
| `UartModel.CompletionApproaches` | drivers/uart1.c:111-157 | until completion something can act, and whatever acts leaves less to do |
| `Uart.WindowGrows` | drivers/uart1.c:69-88 | the cells between the indices gain the new byte at the end, also when the queue becomes full |
| `Uart.WindowShrinks` | drivers/uart1.c:92-108 | the cells between the indices lose their first byte, also from a full queue |
| `Uart.Ring.Enqueue` | drivers/uart1.c:69-88 | a bounded FIFO: appended exactly when not full |
| `Uart.Ring.Dequeue` | drivers/uart1.c:92-108 | a bounded FIFO: the oldest byte, exactly when there is one |
| `Uart.Driver.SendByte` | drivers/uart1.c:174-192 | one offered byte as the schedule model has it |
| `Uart.Driver.Interrupt` | drivers/uart1.c:140-156 | the transmit branches of the handler as the schedule model has them |
| `Uart.Driver.SendMessage` | drivers/modbus_master.c:44-59 | from an empty queue every message of up to 256 bytes is on the line, whole and in order, when the call returns, whatever interrupts and hardware do after each byte |
| `CommModel.ActionKeeps` | comm/inter_comm.cpp:209-403 | an action of either task loses a register exactly if it gives up a frame with it, nobody set it again and the slave lacks its value; what is not lost is dirty, in the frame, or equal in cache and slave, with the value last asked for |
| `CommModel.AlwaysCoherent` | comm/inter_comm.cpp:209-403 | at every point of a run of both tasks all set registers are coherent if and only if no frame given up in it drops one |
| `CommModel.OnlyDropsLose` | comm/inter_comm.cpp:209-403 | from any state on, a run loses nothing but what it drops |
| `CommModel.ReceiveSparesSet` | comm/inter_comm.cpp:292-305 | receiving never changes what a locally set register shows |
| `CommModel.StoreWindow` | comm/inter_comm.cpp:296-304 | if the setter comes between the lock check and the store, its value survives exactly when the slave already held it |
| `CommModel.StoreWindowLoses` | comm/inter_comm.cpp:296-304 | in a reachable state: 5 is set while a 7 is being stored, and the 7 stays |
| `CommModel.SetWindow` | comm/inter_comm.cpp:398-402 | if the frame collects a register between lock and store, the new value reaches the slave exactly when it equals the old |
| `CommModel.SetWindowLoses` | comm/inter_comm.cpp:398-402 | in a reachable state: 5 is set over 0 while the frame collects it, and the 0 is sent |
| `CommModel.GivenUp` | comm/inter_comm.cpp:246-262 | after a frame given up the next read shows what was last asked for if and only if the register was set again, an attempt was carried out though not acknowledged, or the slave held the value before |
| `CommModel.FiveUnheard` | comm/inter_comm.cpp:246-262 | in a reachable state: a 5 set over a 7 is lost after five writes nobody hears |
| `CommTiles.TilingKept` | comm/inter_comm.cpp:275-321 | in every state a read names 1 to 32 registers inside the window, and quantity and count cannot change mid-cycle |
| `CommTiles.CycleTiles` | comm/inter_comm.cpp:275-321 | a running cycle reads exactly the remaining frames of its own quantity, whatever the settings become |
| `CommTiles.WholeCycle` | comm/inter_comm.cpp:275-321 | a whole cycle reads all the frames of the quantity it began with, whatever the settings become |
| `CommTiles.CycleReadsOnce` | comm/inter_comm.cpp:275-321 | so it reads each register of its window exactly once and no other |
| `CommTiles.TilesPartition` | comm/inter_comm.cpp:283-285 | the frames of a cycle cover every register of the window exactly once and no other |
| `CommTiles.TilesAre` | comm/inter_comm.cpp:283-285 | frame k of a cycle begins at register 32k and has 32 registers, the last what is left |
| `InterComm.BitsIndependent` | comm/inter_comm.cpp:170-206 | setting or clearing a lock bit changes that bit and no other |
| `InterComm.LockedAfter` | comm/inter_comm.cpp:170-206 | on the mask as a set: adds or removes exactly that register |
| `InterComm.CarriedOnce` | comm/inter_comm.cpp:209-272 | of the frames one pass sends, each dirty register is in exactly one and no clean register in any |
| `InterComm.RegisterCache.Lock` | comm/inter_comm.cpp:170-180 | the set of locked registers gains one |
| `InterComm.RegisterCache.Unlock` | comm/inter_comm.cpp:183-193 | the set of locked registers loses one |
| `InterComm.RegisterCache.LockStatus` | comm/inter_comm.cpp:196-206 | membership in the set of locked registers |
| `InterComm.RegisterCache.DataSet` | comm/inter_comm.cpp:395-403 | an index in range is locked and stored, another ignored |
| `InterComm.RegisterCache.DataGet` | comm/inter_comm.cpp:379-392 | a register that was set and not lost shows the value last asked for, and the slave has it too unless it is still on its way; zero out of range |
| `InterComm.RegisterCache.CollectFrame` | comm/inter_comm.cpp:218-244 | dirty registers in succession are taken with their values and cleaned, as many as there are up to eight, with the setter active in between |
| `InterComm.RegisterCache.SendFrame` | comm/inter_comm.cpp:246-262 | the frame is acknowledged exactly if one of up to five writes is good; every failed write is counted; the slave holds the frame exactly if one was heard; a register is lost exactly if none was, nobody set it again and the slave lacked its value |
| `InterComm.RegisterCache.Transmit` | comm/inter_comm.cpp:209-272 | with the setter anywhere, nothing is lost unless five writes in a row go unheard, and the errors are the failed writes; with the setter still, each dirty register is sent once in ascending frames as long as they can be up to 8, no clean one, none stays dirty, and without errors the slave has exactly these values besides its own |
| `InterComm.RegisterCache.ConfigUpdate` | comm/inter_comm.cpp:510-526 | the window changes only between cycles |
| `InterComm.RegisterCache.Receive` | comm/inter_comm.cpp:275-321 | one frame of the cycle, in range; clean registers take the slave's value, dirty ones keep theirs, the rest stay; without an answer nothing changes but what the setter did, and exactly then one error is counted |
| `InterComm.RegisterCache.StoreAll` | comm/inter_comm.cpp:292-305 | an answer is stored register by register with the setter active in between; nothing is lost and locked registers are spared |
| `InterComm.RegisterCache.Transceive` | comm/inter_comm.cpp:529-602 | a whole round keeps the cycle tiled and loses nothing unless five writes in a row go unheard; it returns no errors exactly if the read was answered and every write was good the first time |
| `SaverModel.StepKeepsInv` | system/app_data.cpp:279-569 | every step of the saver or of another task keeps each changed preset flagged, on its way, or equal in EEPROM and memory |
| `SaverModel.NothingForgotten` | system/app_data.cpp:416-569 | after any run, an unflagged changed preset not being written is equal in EEPROM and memory, and a flag behind the pass has asked for another |
| `SaverModel.RunWaits` | system/app_data.cpp:529-549 | along any run whose ticks do not reach what remains of 2500, the EEPROM is left alone, whatever is set meanwhile |
| `SaverModel.ChangeWaits` | system/app_data.cpp:529-549 | a change of a preset outside the save stage is followed by 2500 ticks without a write to the EEPROM |
| `SaverModel.SetBounds` | system/app_data.cpp:416-432 | there are 26 items, and only the ten presets are flagged |
| `SaverModel.ChangeTouches` | system/app_data.cpp:416-432 | a change of one of the ten is flagged, announced and remembered |
| `SaverModel.StepApproaches` | system/app_data.cpp:503-569 | each undisturbed step strictly decreases a measure bounded by 46 |
| `SaverModel.AtRest` | system/app_data.cpp:503-569 | at measure zero no flag is up and every changed preset is equal in EEPROM and memory |
| `SaverModel.SavedMeans` | system/app_data.cpp:317-323 | the EEPROM register of each of the ten items that was changed is its item number, and holds the item |
| `SaverModel.Settles` | system/app_data.cpp:503-569 | once changes stop, 46 steps at least 100 ticks apart save everything |
| `SaverSteps.EventKeepsPending` | system/app_data.cpp:279-569 | with a set taken apart into storing, flagging and announcing, and the saver's watching into testing, taking back and changing its stage, every step of every task keeps each changed preset safe or about to be flagged, and announced or about to be |
| `SaverSteps.WatchIsSplit` | system/app_data.cpp:530-549 | with nothing in between, the steps of watching make the whole step |
| `SaverSteps.RestIsInv` | system/app_data.cpp:416-549 | where no call is under way that is exactly the invariant of whole steps |
| `SaverSteps.AllSettles` | system/app_data.cpp:279-569 | however sets and saver interleave, once every call has returned 46 undisturbed calls save everything |
| `SaverSteps.RunWaits` | system/app_data.cpp:416-549 | however sets and saver interleave, the EEPROM is left alone until what remains of 2500 ticks has passed |
| `SaverSteps.AnnouncedWaits` | system/app_data.cpp:416-549 | that is 2500 ticks after an announcement to a saver that has not just looked |
| `AppData.Settings.IndexFromId` | system/app_data.cpp:35-155 | the first preset of the item, or the table's length |
| `AppData.Settings.AddToSaveQueue` | system/app_data.cpp:279-292 | flags exactly the item's preset, if it has one |
| `AppData.Settings.ItemSet` | system/app_data.cpp:416-432 | an item in range takes the new value; a changed preset is flagged and announced |
| `AppData.Settings.ItemSave` | system/app_data.cpp:317-323 | the value read is the value written, with other tasks active in between |
| `AppData.Settings.SaveOne` | system/app_data.cpp:552-566 | the save stage handles one preset and moves on or ends the pass |
| `AppData.Settings.TaskProc` | system/app_data.cpp:529-567 | one call keeps the invariant with other tasks anywhere, undisturbed is one step of the settling theorem, writes nothing outside the save stage, and enters it only from a cooldown of at least 2500 ticks in which no change was announced |
| `AppData.SinceWraps` | system/app_data.cpp:546 | the time passed is right across the wrap of the 32-bit tick count |
| `Numbers.RoundTrip` | lib/ustdlib.c:433-545 | every 32-bit value printed in base 10 or 16, with any width, fill and sign, parses back to itself and uses the whole text |
| `Numbers.DigitsRead` | lib/ustdlib.c:520-545 | reading digits back from any place down turns the value above that place into the value |
| `Numbers.DigitCharIs` | lib/ustdlib.c:41 | digits above nine are capital letters |
| `Numbers.TopIsUnique` | lib/ustdlib.c:434-439 | a value has one highest place |
| `Ustdlib.GuardIsComparison` | lib/ustdlib.c:434-439 | the wrap-around guard of the digit search is the comparison of the unbounded product |
| `Ustdlib.PrintedParses` | lib/ustdlib.c:433-545 | what %d, %u or %x prints for any 32-bit argument parses back to it |
| `Ustdlib.FieldShape` | lib/ustdlib.c:433-545 | for up to nine digits that write a width below 65536: the text is sign and digits in a field of that width, zeros behind the sign if the first digit is zero, else spaces before it |
| `Ustdlib.FieldWidth` | lib/ustdlib.c:433-545 | such a field has as many characters as the width says, or as sign and digits need |
| `Ustdlib.WideField` | lib/ustdlib.c:474-479 | a width from 65569 on is no width at all |
| `Ustdlib.SpecMeans` | lib/ustdlib.c:170-220 | up to nine digits give the width they write, and zeros fill exactly if the first is a zero |
| `Ustdlib.Output.ReadSpec` | lib/ustdlib.c:170-220 | width and fill of the digits before the command, width modulo 2^32 |
| `Ustdlib.Output.FindPlace` | lib/ustdlib.c:434-439 | the greatest power of the base not above the value, and the width less the digits found |
| `Ustdlib.Output.PutPadding` | lib/ustdlib.c:474-500 | the fill characters, none when the width left is at most one or not below 65536 |
| `Ustdlib.Output.PutDigits` | lib/ustdlib.c:520-540 | the digits from the highest place down |
| `Ustdlib.Output.Convert` | lib/ustdlib.c:433-545 | the whole conversion as text, except a minus sign that meets a full buffer |
| `Ustdlib.MinusOneLosesSign` | lib/ustdlib.c:505-518 | -1 printed into a buffer of one character produces and counts the digit alone |
| `Ustdlib.SignLostWhere` | lib/ustdlib.c:455-518 | the sign of -42 in a field of five is lost with room for two characters behind spaces, and with none before zeros |
| `Formats.Usnprintf` | lib/ustdlib.c:95-616 | for every format that stays within its room, the buffer gets the front of the whole text that fits, a terminator and nothing else; the count is the text's length less the minus signs that met a full buffer |
| `Formats.FormatParses` | lib/ustdlib.c:95-616 | the text of a format of one numeric conversion parses back to its argument |
| `Formats.NumericText` | lib/ustdlib.c:222-545 | %d is a signed decimal, %u an unsigned one, %x, %X and %p hexadecimal, each in its field |
| `Formats.OtherTexts` | lib/ustdlib.c:222-610 | %c, %s with spaces behind it, %%, and ERROR for any other command |
| `Formats.HexExample` | lib/ustdlib.c:95-616 | 0x%04x of 42 is 0x002A |
| `Formats.SignedExample` | lib/ustdlib.c:433-545 | -42 in a field of five, with spaces and with zeros |
| `Formats.StringKeepsRoom` | lib/ustdlib.c:347-360 | a string leaves the room its text leaves exactly if it is not padded or fills the buffer |
| `Formats.BoundedIff` | lib/ustdlib.c:95-616 | the code stores no more than it has room for if and only if, once a string was padded while there was room, nothing more is put or the whole text fits |
| `Formats.StoredAtLeast` | lib/ustdlib.c:95-616 | it stores at least what there is room for, and exactly the text if there is room for all of it |
| `Formats.PaddedStringMakesRoom` | lib/ustdlib.c:347-360 | three characters in a field of five, with room for nine, leave room for more than four thousand million |
| `Ustdlib.Ustrtoul` | lib/ustdlib.c:880-1047 | value and rest as the parser of the round trip has them, with blanks, sign, prefix and radix selection |
| `Ustdlib.ParsedNumber` | lib/ustdlib.c:880-1047 | the value is the number the digits write, in 32 bits, negated behind a minus |
| `Ustdlib.ParseHexadecimal` | lib/ustdlib.c:919-931 | 0x1F without a radix is 31 |
| `Ustdlib.ParseOctal` | lib/ustdlib.c:936-947 | 0179 without a radix is 15, and the 9 is left |
| `Ustdlib.ParseDecimal` | lib/ustdlib.c:936-955 | +19z without a radix is 19, and the z is left |
| `Ustdlib.ParsePrefix` | lib/ustdlib.c:919-931 | the prefix is taken off in radix 16 |
| `Ustdlib.ParseNoPrefix` | lib/ustdlib.c:919-931 | and is a zero and a letter in radix 10 |
| `Ustdlib.ParseNegative` | lib/ustdlib.c:897-913 | blanks and tabs are skipped before a sign |
| `Ustdlib.ParseLetters` | lib/ustdlib.c:955-1020 | letters of either case count from ten, and without a digit nothing is used |
| `Calendar.Unique` | lib/ustdlib.c:790-861 | no two Gregorian dates have the same seconds |
| `Calendar.JulianAgrees` | lib/ustdlib.c:821-844 | the four-year rule and the Gregorian calendar count the same days from 1970 on but for the leap day of 2100 |
| `Calendar.Time.SetDate` | lib/ustdlib.c:819-861 | the date of a day, right before 1 March 2100 and wrong from then on |
| `Calendar.Time.LocalTime` | lib/ustdlib.c:790-861 | for every 32-bit time the result is a valid date that recomposes to the input if and only if the time is before 1 March 2100; time of day and weekday are always right |
| `Calendar.LimitIsMarch2100` | lib/ustdlib.c:790-861 | the limit is the first second of 1 March 2100 |
| `Calendar.KnownDays` | lib/ustdlib.c:790-861 | 29 February 2000 was a Tuesday and 1 March 2100 will be a Monday |
| `LcdModel.CellsDistinct` | drivers/lcd_driver.c:728-793 | in each orientation different pixels lie in different cells of the frame |
| `LcdModel.CellsCovered` | drivers/lcd_driver.c:728-793 | and every cell belongs to a pixel |
| `LcdModel.CellSteps` | drivers/lcd_driver.c:497-531 | the increments of an orientation lead to the cell of the next pixel right and down |
| `LcdModel.QuarterTurns` | drivers/lcd_driver.c:728-793 | the upright picture begins at the first cell, row by row of 320, and the other three are it turned by quarters |
| `LcdModel.RowShows` | drivers/lcd_driver.c:829-848 | pixels drawn one by one to the right show their values and leave every other pixel alone |
| `LcdModel.BoxShows` | drivers/lcd_driver.c:829-848 | a rectangle drawn pixel by pixel shows its colour inside and leaves every other pixel alone |
| `LcdModel.SameFrame` | drivers/lcd_driver.c:728-793 | frames that show the same on the whole screen are equal, cell by cell |
| `LcdModel.TranslateKeepsChannels` | drivers/lcd_driver.c:811-813 | the translated colour holds the highest five, six and five bits of the channels |
| `LcdModel.ColourChannels` | drivers/lcd_driver.c:942-1057 | a palette entry is blue, green and red; the pixel has red in its highest five bits, green in six, blue in the lowest five |
| `LcdModel.BitsNumber8` | drivers/lcd_driver.c:925-929 | the leftmost of eight pixels is the highest bit |
| `LcdModel.BitPixels` | drivers/lcd_driver.c:929 | a bit picks one of two entries of four bytes, low byte first |
| `LcdModel.NibblePixels` | drivers/lcd_driver.c:955-1021 | the left one of two pixels is the upper half of a byte, and picks an entry of three bytes |
| `LcdModel.BytePixels` | drivers/lcd_driver.c:1034-1046 | a byte picks an entry of three bytes |
| `LcdModel.WordPixels` | drivers/lcd_driver.c:1063-1090 | pixels in the display's own format have their low byte first |
| `LcdDriver.FilledShows` | drivers/lcd_driver.c:1202-1235 | a filled rectangle shows its colour exactly within its inclusive bounds |
| `LcdDriver.LinesAreRectangles` | drivers/lcd_driver.c:1108-1185 | inclusive lines are rectangles one pixel high or wide |
| `LcdDriver.Lcd.OrientationSet` | drivers/lcd_driver.c:496-531 | increments and sizes of each orientation |
| `LcdDriver.Lcd.PixelDraw` | drivers/lcd_driver.c:829-848 | exactly the cell of the pixel changes |
| `LcdDriver.Lcd.LineDrawH` | drivers/lcd_driver.c:1108-1138 | the stepping cursor leaves what single pixels would |
| `LcdDriver.Lcd.LineDrawV` | drivers/lcd_driver.c:1155-1185 | the stepping cursor leaves what single pixels would |
| `LcdDriver.Lcd.RectFill` | drivers/lcd_driver.c:1202-1235 | row cursor and offset leave what single pixels would, also for an empty rectangle |
| `LcdDriver.Lcd.Draw1` | drivers/lcd_driver.c:899-937 | the bit loop from any starting bit, also one behind the first byte, draws what single pixels would |
| `LcdDriver.Lcd.Draw4` | drivers/lcd_driver.c:942-1021 | the nibble loop, entered in its middle for an odd start, draws what single pixels would |
| `LcdDriver.Draw4EndsIff` | drivers/lcd_driver.c:955-1021 | the nibble loop ends exactly if the count is not negative, and not zero for an odd start |
| `LcdDriver.OddEmptyRunGoesOn` | drivers/lcd_driver.c:955-1021 | no pixel from an odd start: the loop takes more turns than any number |
| `LcdDriver.Lcd.Draw8` | drivers/lcd_driver.c:1026-1057 | the byte loop draws what single pixels would |
| `LcdDriver.Lcd.PixelDrawMultiple` | drivers/lcd_driver.c:873-1091 | image data of every depth, in every orientation, leaves exactly what single pixels would and no other cell changed |

## Left out

- I2cTransfers.WriteTransfer: sequences of more than 32 bytes whose end marks come out wrong; for these only index safety and termination are proved. The same holds for `I2cTransfers.ReadTransfer`, `I2cTransfers.ReadRefused` and `I2cTransfers.ReadEnds`.
- I2cMaster.Master.RegRead: a read of more than 128 bytes that finds the bus done, which copies from behind the receive buffer, and reads of 126 and 127 bytes on an idle bus; see `I2cSw.CallStaysIff`.
- I2cMaster.Master.RegWrite: a write of 127 bytes on an idle bus, likewise.
- I2cSw.CallStaysIff: sizes above 255, which the eight-bit argument of the code cannot carry.
- AtEeprom.Eeprom.ByteWrite16: calls on a stopped bus, which wait until another task resumes it; nothing in the repository stops the bus. The same holds for `AtEeprom.Eeprom.RandRead16`.
- Storage.Store.SaveAll: the callback is a list of saves. The body of the firmware's own callback is compiled out.
- FlashRuns.CrashAtomicIff: callbacks that save other than what the page held, or first another word for a parameter.
- Half-programmed words and interrupted erases: each flash call is atomic.
- ModbusDrivers.Slave.Parse: requests that leave the 256-byte buffer, which the code does not look at; `Modbus.InBufferIff` says which they are.
- ModbusDrivers.Master.WriteMultipleRegs: more than 251 registers, which overrun the 512-byte buffer; see `Modbus.WriteFrameFits`.
- ModbusDrivers.Master.ReadInputRegs: an answer judged Ok whose count is more than the caller has room for.
- Timeouts and the receive side of the serial port beyond its queue: what arrives in time is a parameter.
- UartModel.StepKeepsSound: the receive branch of the handler, which shares no state with transmission but delays it.
- CommModel.AlwaysCoherent: `InterCommDataSet` and the test-and-store of receiving as finer steps, where the property fails; see `SetWindow` and `StoreWindow`.
- InterComm.RegisterCache.ConfigUpdate: the start address and the slave address, which stay fixed here; formats, connection counters, the ready mask and the LED.
- SaverModel.StepKeepsInv: EEPROM writes that fail unnoticed.
- `app_data_settings_restore` and `app_data_item_load`: they mix preset index and item number; the model starts afterwards.
- Formats.Usnprintf: formats that end in a percent sign without a command, and those that leave their room; see `Formats.BoundedIff`.
- LcdDriver.Lcd.PixelDrawMultiple: negative counts, and an odd nibble start with a count of zero, where the loops do not end.
- LcdModel.Colour: the fourth byte read with a palette entry and masked off.
- Register set-up of GPIO, clocks, DMA, FSMC, SPI and the serial ports, the operating system and the network: hardware and libraries not shown.
- Widgets, windows, tables, dialogs, images and clamping of settings: members without hard properties.
- `drivers/touch.c`: its pen-up path can run before its samples are filled, and calibration uses floating point.
