# Models of the LPC1769 peripheral drivers

This project models the drivers of the repository that hold an algorithm or a protocol and proves what
they are for. The drivers are C code for a Cortex-M3; machine integers are ranges of `int` with the
wrap-around written out (`MachineInts.dfy`), and each device at the other end of a wire is a small state
machine whose behaviour in time is left open: what arrives, what is answered and how long it takes is given
by an arbitrary record of events, so every statement holds for all of them.

| files | driver |
|---|---|
| `Enc28j60Ring.dfy`, `Enc28j60Chip.dfy`, `Enc28j60.dfy` | ENC28J60 Ethernet controller: receive ring, register banks, start-up, sending |
| `Bme280Compensation.dfy`, `Bme280Exact.dfy`, `Bme280Settings.dfy`, `Bme280Bus.dfy` | BME280 sensor: fixed-point compensation and its distance from the exact polynomials, settings protocol, burst writes |
| `Nmea.dfy`, `NmeaFields.dfy`, `NmeaData.dfy`, `NmeaSentence.dfy` | NMEA 0183 link layer (section 5, data format protocol), field parsers, position and speed sentences |
| `Circle.dfy` | midpoint circle of the SSD1289 display driver |
| `Rtc.dfy`, `RtcText.dfy` | calendar of the real-time clock, date printer and parser |
| `SdDevice.dfy`, `SdCard.dfy`, `SdCsd.dfy` | SD card in SPI mode: block transfers and capacity |
| `MonitorDigits.dfy`, `MonitorFormat.dfy`, `MonitorPrinted.dfy`, `MonitorParse.dfy`, `MonitorRoundTrip.dfy` | console formatter and number parser |
| `Max7219.dfy` | chain of MAX7219 display drivers |

Code that updates variables is a class or a loop here too; its contract ties it to a specification function
or states the property itself, and the lemmas are about those functions. Functions of the source that are
long are cut into several methods, one for each run of statements.

## Where the code does not do what it is meant to do

The model follows the code. For each case the named lemmas and methods prove which inputs it concerns:

- `enc28j60PacketReceive` sets the receive read pointer twice, first onto the next packet and then one byte
  before it. If the chip fills the ring to its last byte in between, the second write makes it take the full
  ring for an empty one. The write is safe if and only if a byte is left over (`ReadPointerBeforeHead`), and
  exactly then the driver is ready again (`PacketReceive`). `RaceRun` is a run of the driver, from the
  start-up of any chip and with receivable frames only, that ends with the whole ring open to the chip
  although packets are unread. On a chip that starts packets on even addresses only, it takes a next packet
  at address 0 (`EvenRingFillsAtZero`, `PacketReceive`).
- The driver's comment asks never to write an even address there. One of the two writes always is even: the
  first is the next packet's own address, and the second is odd if and only if that address is even and
  not 0 (`EvenWritten`, `GiveBack`).
- `enc28j60PacketSend` does not check the length. A frame leaves the receive ring alone, whatever its bytes,
  if and only if it has at most 0x600 bytes (`FrameStaysOutOfRing`); the bytes of a longer one from number
  0x600 on go to the ring, from its start on (`FrameInRing`, `PacketSend`).
- `enc28j60PacketSend` resets the transmit logic as long as the last frame is still going out. The reset cuts
  that frame off, and the chip is told to send the next one (`HoldTransmitter`, `WaitForTransmitter`).
- The BME280 pressure limiter works on an unsigned word. In the design range the reported pressure is the
  nearest one in range if and only if the corrected sum is at least -3, and the maximum otherwise
  (`LimiterExact`). A numerator and coefficients P7 to P9 that are not negative suffice (`PressureRight`);
  without correction the exact condition is on the numerator (`UncorrectedPressureRight`). Negative pressures
  are reachable (`NegativePressureReadsAsMaximum`). The bound on P1 is exact: from 47663 on the divisor
  overflows within the other bounds (`DesignRangeIsTight`).
- `set_osr_settings` overwrites the status of the humidity write when pressure or temperature is selected
  too. Success then means what was asked for if and only if the write to ctrl_hum did not fail or did not
  matter (`SetOsrSettings`, `PutDeviceToSleep`, `ChangedExactly`); `HumidityLost` is a run that ends with
  success and without humidity oversampling.
- A sensor that is awake is reset on the way to sleep, and the two low bits of config, among them the switch
  to three-wire SPI, are not written back: they are 0 afterwards (`SetSensorSettings`, `SetSensorMode`).
- `date2days` adds the leap day in February and leaves it out from March on. Reading the set clock is right
  if and only if the year is common or the month is January (`ReadBack`); `SecondsInvert` and `MomentsInvert`
  prove the inverse for the count as it is meant. From 2^31 seconds on the signed count of `unixtime`
  overflows (`CountedExactly`).
- `dow` follows the Gregorian rule, the clock counts every fourth year as a leap year. They agree for
  exactly the dates before March 2100 (`DowCountsDays`).
- The ending of a day number is right if and only if the day is not 11, 12 or 13, which are printed as "11st",
  "12nd" and "13rd" (`EndingRight`).
- A negative number padded by zeros has the zeros before its sign (`NegativeZeroPadded`).
- The digit buffer of `xvprintf` holds 16 digits, so of a binary number only the low 16 bits are printed
  (`WordKept`).
- `xatoi` takes the characters `:` to `?` for the hexadecimal digits 10 to 15, since its test for a value
  that is still at most 9 never holds (`LetterTestIsDead`). A digit is read as what it means if and only if
  it is not such a character in radix 16 (`DigitMeant`).
- `xatoi` needs no digit behind "0x" and "0b", and does not notice an overflow. It fails where no number
  stands and otherwise returns the number that stands there, if and only if there is no hexadecimal number
  with one of those characters among its digits, no prefix without a digit, and no number outside a signed
  32-bit word (`AtoiMeant`). "0x:" is read as 10, "0x" as 0, "0x100000000" as 0 and "0x80000000" as its
  negative (`ColonReadsAsTen`, `PrefixReadsAsZero`, `OverflowReadsAsZero`, `WordReadsAsNegative`).
- The NMEA parser sets a fraction only if the field has a point, and clears only those of the coordinates
  first. A field for time, precision, altitude, heading or speed without a point therefore keeps the fraction
  of an earlier sentence, and is right if and only if that was 0 and its integer part fits (`UnsignedRight`,
  `AltitudeRight`). After a speed of "1.5" the speed "1" is taken for 1.5 (`KeptFraction`).
- The sign of a coordinate or an altitude is kept in its integer part only. A coordinate, with a point or
  without, is right if and only if its integer part fits the signed word and is not 0 with decimals behind it
  and a negative direction (`CoordinateRight`); "0.5,S" is stored as north (`SouthLost`).
- The application is told of new data by every position sentence, whatever its field for a valid fix says
  (`OnGga`).
- A CSD of version 2.0 with the largest C_SIZE gives a sector count of zero (`CapacityV2`); one of version 1.0
  with READ_BL_LEN + C_SIZE_MULT below 7 shifts by a negative amount (`CapacityV1`).
- `max7219_disp_char` replaces a character from 128 on by a space only after it has taken the table index.
  The lookup stays in the table, and the character meant is shown, if and only if it is below 128
  (`LookupInTable`, `DispChar`).

## Model

| member | source | states |
|---|---|---|
| Enc28j60Ring.UnreadBytesAreSafe | src/enc28j60.c:426-442 | no byte of an unread packet lies in the region given back to the chip |
| Enc28j60Ring.ArrivalKeeps | src/enc28j60.c:384-446 | whatever packet fits in the free region, storing it leaves all unread packets intact and in order, at every wrap-around |
| Enc28j60Ring.ReadPointerBeforeHead | src/enc28j60.c:430-442 | setting it one byte before is safe if and only if the unread packets leave a byte of the ring free; otherwise the chip is given the whole ring |
| Enc28j60Ring.FullRingOpens | src/enc28j60.c:426-442 | the race between the two pointer writes: whatever packet fits to the last byte and arrives after the first, the second opens the whole ring |
| Enc28j60Ring.EvenRingFillsAtZero | src/enc28j60.c:430-442 | with packets on even addresses only, the ring can be full to the last byte only behind an oldest packet at address 0 |
| Enc28j60Ring.EvenWritten | src/enc28j60.c:428-441 | of the address of the next packet and the one before it one is even; the one before is odd if and only if the address is even and not 0 |
| Enc28j60Ring.LittleArrived | src/enc28j60.c:384-446 | if less arrives during a call than the packet it takes, the window is not full |
| Enc28j60Ring.FrameInRing | src/enc28j60.c:341-365 | what each ring byte holds after a frame of any length has been laid out: the last frame byte that comes there, or what it held |
| Enc28j60Ring.FrameStaysOutOfRing | inc/enc28j60.h:251-259 | laying out a frame leaves the ring as it was, for every memory and every content, if and only if its length is at most the distance of the transmit bounds |
| Enc28j60Chip.AcceptKeeps | src/enc28j60.c:384-446 | every packet the chip accepts keeps the unread packets safe |
| Enc28j60.Driver.SetBank | src/enc28j60.c:112-124 | afterwards the cache names the bank of the address; if it named another before, the chip is switched to it whatever its bank was |
| Enc28j60.Driver.Read | src/enc28j60.c:127-133 | reads exactly the register of the bank and offset the address names, the common registers included, while packets arrive |
| Enc28j60.Driver.Write | src/enc28j60.c:136-142 | writes exactly that register, after the bank has been switched if need be; the cache stays right if and only if the write is not to ECON1 with bank bits of another bank |
| Enc28j60.Driver.PhyWrite | src/enc28j60.c:145-158 | the PHY word that the five low bits of the address select becomes the data and no other changes; the PHY is no longer busy afterwards, the cache is right and the received packets are safe |
| Enc28j60.Driver.PhyRead | src/enc28j60.c:161-178 | returns the PHY word that the five low bits of the address select, waiting until it has arrived; no PHY word changes, the cache is right and the received packets are safe |
| Enc28j60.Driver.GetOUI | src/enc28j60.c:293-307 | the vendor number is bits 15 to 10 of PHY word 3 above the 16 bits of PHY word 2 |
| Enc28j60.Driver.SoftReset | src/enc28j60.c:205-207 | puts the chip to bank 0 behind the back of the cache |
| Enc28j60.Driver.InitStart | src/enc28j60.c:216-218 | the first bank-0 write after the reset reaches bank 0 although the cache names another bank, and the chip starts writing at 0 |
| Enc28j60.Driver.InitAddress | src/enc28j60.c:266-274 | the six address registers hold the station address |
| Enc28j60.Driver.Init | src/enc28j60.c:189-284 | from any chip state the driver ends ready to receive: cache right, ring and transmit area set up, read pointer at the start, filter and MAC configured, reception on; the six address registers are the fixed bytes and those of PHY words 2 and 3, and no PHY word changes but number 16, which is 0x0100 |
| Enc28j60.Driver.ReadHeader | src/enc28j60.c:398-407 | length without the checksum, status, and the start of the next packet |
| Enc28j60.Driver.ReadBuffer | src/enc28j60.c:79-93 | copies the bytes of the oldest packet, whatever arrives meanwhile, and closes them with a zero |
| Enc28j60.Driver.GiveBack | src/enc28j60.c:426-442 | two writes of the read pointer: the first puts it onto the next packet, the second onto the ring predecessor, one of them even; the packets stay safe if and only if the ring was not filled to the last byte in between, which an aligned chip does only if the next packet starts at 0 |
| Enc28j60.Driver.HasRxPkt | src/enc28j60.c:369-376 | true only if a packet is waiting, and true if one was waiting before the call |
| Enc28j60.Driver.PacketReceive | src/enc28j60.c:384-446 | a call takes the oldest packet exactly if there is one when the counter is read: its data cut to maxlen - 1 bytes, or length 0 if it is not marked ok; the driver is ready again if and only if the window was not full, which takes as many bytes arriving during the call as the packet taken has and, on an aligned chip, a next packet at address 0 |
| Enc28j60.Driver.HoldTransmitter | src/enc28j60.c:349 | puts the transmit logic into reset, in which the chip starts no transmission: what was going out is cut off |
| Enc28j60.Driver.WaitForTransmitter | src/enc28j60.c:343-352 | ends with no transmission in progress, so that no frame is overwritten while it goes out, and with the transmit logic out of reset, so that the chip can send |
| Enc28j60.Driver.WriteBuffer | src/enc28j60.c:96-109 | for every length the bytes lie one after the other around the end of the memory, and the whole memory is stated if no packet arrives meanwhile; outside the ring no received packet is touched |
| Enc28j60.Driver.PacketSend | src/enc28j60.c:341-365 | for every length that fits the transmit area the chip is told once to send exactly this frame, laid out behind a zero control byte, and no received packet is disturbed; for every length the contents of the memory and of each ring byte afterwards |
| Enc28j60.Driver.Serve | src/enc28j60.c:112-446 | over every sequence of calls and arrivals the cache stays right, the packets come out in order of arrival, none lost and none twice, the calls take the packets that were waiting before the run, and the chip is told to send the frames asked for in order, until a window is full, which on an aligned chip takes a next packet at address 0 |
| Enc28j60.RaceRun | src/enc28j60.c:189-446 | from the start-up of any chip ten receivable frames and six calls lead to a ring that is full to the last byte and that the chip takes for empty |
| Bme280Compensation.OffsetFits | src/bme280.c:1027-1030 | the 64-bit offset never overflows in the design range |
| Bme280Compensation.DivisorPositive | src/bme280.c:1031-1033 | the divisor never overflows and is positive in the design range |
| Bme280Compensation.PressureNeverOverflows | src/bme280.c:1016-1053 | for every 20-bit reading in the design range no intermediate leaves 64 bits, nothing is divided by zero, and the result is within the limits |
| Bme280Compensation.DesignRangeIsTight | src/bme280.c:1031-1033 | every P1 above the bound makes the divisor overflow within the other bounds |
| Bme280Compensation.LimiterExact | src/bme280.c:1016-1053 | over the design range the reported pressure is the nearest one in range if and only if the computed one is not negative, that is if and only if the corrected sum is at least -3, and otherwise the maximum |
| Bme280Compensation.PressureRight | src/bme280.c:1016-1053 | with a numerator and coefficients P7 to P9 that are not negative the reported pressure is the nearest one in range |
| Bme280Compensation.UncorrectedPressureRight | src/bme280.c:1016-1053 | with P7 to P9 zero it is so if and only if the numerator is above -1024 times the divisor |
| Bme280Compensation.NegativePressureReadsAsMaximum | src/bme280.c:1016-1053 | a calibration in the design range for which every temperature reading below 2^19 gives the fine temperature 0 and the highest pressure reading, whose pressure is negative, is reported as the maximum |
| Bme280Compensation.TemperatureNeverOverflows | src/bme280.c:987-1009 | for every 20-bit reading and calibration in range no 32-bit intermediate overflows, and the result is within the limits |
| Bme280Compensation.Compensator.CompensateTemperature | src/bme280.c:987-1009 | computes the temperature and leaves the fine temperature for the pressure |
| Bme280Compensation.Compensator.CompensatePressure | src/bme280.c:1016-1053 | the sequence of checked 64-bit assignments, with its early ends, computes the pressure on the fine temperature left before; Bme280Exact says what that is |
| Bme280Compensation.Compensator.CompensateData | src/bme280.c:651-679 | if anything is selected the temperature is compensated first, so that the pressure uses its fine value, unless that overflows, which it does not in range; if nothing is selected, nothing is computed |
| Bme280Exact.PressureNear | src/bme280.c:1016-1042 | for every 20-bit reading and calibration in the design range the pressure before the limits is within 24/100 Pa of the exact polynomial of the compensation, written as one numerator over one denominator in the reading, the fine temperature and P1 to P9 |
| Bme280Exact.ReportedNear | src/bme280.c:1016-1053 | so is the reported pressure, if the exact one is at least that far inside the limits |
| Bme280Exact.TemperatureNear | src/bme280.c:987-1009 | for every 20-bit reading and calibration in range the fine temperature is within 24 units of the exact polynomial in the reading and T1 to T3, and the temperature within two hundredths of a degree, if the exact one is that far inside the limits |
| Bme280Settings.MacrosUpdateFields | inc/bme280_defs.h:165-174 | setting a field stores the low bits there and leaves the other bits alone |
| Bme280Settings.BitsOfByte | inc/bme280_defs.h:177-195 | the fields of a register are bits 1-0, 4-2 and 7-5 of its byte |
| Bme280Settings.Driver.Fill | src/bme280.c:777-812 | the selected ones of bits 4-2 and 7-5 take the new values and the others stay |
| Bme280Settings.ChangedExactly | src/bme280.c:466-491 | after lost writes to ctrl_hum the settings are those wanted if and only if the losses were harmless |
| Bme280Settings.HumidityLost | src/bme280.c:847-862 | from every sensor state, a run in which only the third transaction fails ends with success and the humidity oversampling 0 |
| Bme280Settings.Driver.SetOsrHumidity | src/bme280.c:701-721 | succeeds exactly if its three transactions do, and then the new humidity oversampling is in effect, because ctrl_meas is written after it |
| Bme280Settings.Driver.SetOsrPressTemp | src/bme280.c:727-746 | on success bits 4-2 of ctrl_meas are the pressure and bits 7-5 the temperature oversampling, if selected, and every other bit of it is as before |
| Bme280Settings.Driver.SetOsrSettings | src/bme280.c:685-695 | its exact status; on success exactly the selected oversamplings have changed if and only if the humidity write, if selected, did not fail or would have changed nothing |
| Bme280Settings.Driver.SetFilterStandby | src/bme280.c:752-771 | in sleep mode, on success bits 4-2 of config are the filter and bits 7-5 the standby time, if selected, and every other bit of it is as before |
| Bme280Settings.Driver.WritePowerMode | src/bme280.c:825-841 | on success bits 1-0 of ctrl_meas are the mode and its other bits and config are as before |
| Bme280Settings.Driver.ReloadDeviceSettings | src/bme280.c:868-878 | its exact status; on success all five settings are written back, except the humidity oversampling if the first transaction, the write to ctrl_hum, failed |
| Bme280Settings.Driver.PutDeviceToSleep | src/bme280.c:847-862 | from any register state, its exact status; on success the sensor is asleep with what is set in effect, and has all five settings as before if and only if the third transaction, the write to ctrl_hum, did not fail or the humidity oversampling was 0; otherwise that is 0 |
| Bme280Settings.Driver.SetSensorMode | src/bme280.c:517-537 | its exact status; on success the mode is changed and no setting is, if and only if no humidity oversampling other than 0 was lost on the way to sleep; on success the fields of ctrl_meas and config are given one by one |
| Bme280Settings.Driver.SetSensorSettings | src/bme280.c:466-491 | its exact status; on success the sensor is asleep and exactly the selected settings have changed, except for the humidity oversampling: 0 if the write to ctrl_hum was lost on the way to sleep, and not the new value if that write was lost afterwards; on success the fields of ctrl_meas and config are given one by one |
| Bme280Bus.SetRegs | src/bme280.c:416-460 | the sensor decodes the burst as the first ten wanted writes in order; an empty request is refused; over SPI bit 7 of the addresses is cleared |
| Bme280Bus.Interleaved | src/bme280.c:1178-1186 | fills the buffer so that it decodes to the wanted writes |
| Nmea.ReceiverInvariant | src/nmea.c:497-572 | after every stream, what the receiver holds is exactly the pending end of that stream |
| Nmea.FrameAccepted | src/nmea.c:497-572 | a whole frame of a storable payload is delivered, once, and the receiver is back at its start |
| Nmea.DeliveredExactly | src/nmea.c:497-572 | after any stream, a byte delivers a payload if and only if the stream ends with its frame and no start marker interrupted it |
| Nmea.ChecksumSingleChange | src/nmea.c:521-522 | changing one byte changes the checksum |
| Nmea.FramesDifferTwice | src/nmea.c:149-161 | two frames of the same length differ in two places at least |
| Nmea.CorruptFrameRejected | src/nmea.c:497-572 | a frame with any one byte replaced by any other delivers nothing, and the receiver is back at its start after it |
| Nmea.IntactFramesOnly | src/nmea.c:497-604 | of any row of frames with at most one byte replaced in each, exactly the intact payloads are delivered, in order, and the receiver is back at its start |
| Nmea.SendingIsFrame | src/nmea.c:574-604 | what is sent for a string with its start marker is the frame that the receiver accepts |
| Nmea.TrailerText | src/nmea.c:584-603 | the trailer is a star, the checksum in two characters of 0123456789ABCDEF with their values, carriage return and line feed |
| Nmea.Transmitter.TxTrailer | src/nmea.c:584-603 | sends exactly these characters |
| Nmea.Receiver.OnRxByte | src/nmea.c:497-572 | one step of the automaton on state, index, checksum and buffer; a complete frame is handed on as a C string |
| Nmea.Receiver.OnRxStream | src/nmea.c:497-572 | the run of the automaton over a stream |
| Nmea.Transmitter.TxByte | src/nmea.c:142-146 | a byte is sent if an output function is installed |
| Nmea.Transmitter.TxFrame | src/nmea.c:574-604 | sends the string and the trailer with its checksum |
| Nmea.ReceiveAll | src/nmea.c:497-604 | the receiver in operation hands on exactly the intact payloads |
| NmeaFields.ParseUnsigned | src/nmea.c:207-220 | returns the number of the field modulo its width and stops at its end |
| NmeaFields.ParseFraction | src/nmea.c:223-242 | reads at most as many digits as wanted and supplies the missing ones |
| NmeaFields.ParseSigned | src/nmea.c:180-204 | returns the number of the field without its minus signs in a signed 16-bit word, negative if there is one, and stops at its end |
| NmeaFields.FindNextParam | src/nmea.c:283-290 | lands behind the next comma or on the end of the string |
| NmeaFields.ScaledUp | src/nmea.c:223-242 | with few enough digits the scaled value is exact |
| NmeaFields.CutOff | src/nmea.c:223-242 | with more digits it is rounded down |
| NmeaFields.ParseFixedPoint | src/nmea.c:326-345 | integer part, fraction if there is a point, and next field |
| NmeaFields.Rounded | src/nmea.c:223-242 | integer part and decimals are the value times 10^p, rounded down |
| NmeaData.UnsignedRight | src/nmea.c:318-408 | a decimal field for time, precision, heading or speed is stored as its value, rounded down, if and only if its integer part fits and it has a point or the fraction before was 0 |
| NmeaData.CoordinateRight | src/nmea.c:315-350 | a decimal field for a coordinate, with a point or without, is stored as its value with its direction if and only if its integer part fits a signed word and is not 0 with decimals and a negative direction |
| NmeaData.AltitudeRight | src/nmea.c:368-373 | the same for the altitude and its minus sign, if it has a point or the fraction before was 0 |
| NmeaData.SouthLost | src/nmea.c:326-336 | half a minute south of the equator is stored as half a minute north |
| NmeaData.Gps.ParseCoordinate | src/nmea.c:326-337 | number and direction of a coordinate, and the field behind them |
| NmeaData.Gps.OnGga | src/nmea.c:313-383 | every field of a position sentence is read from its own place between the commas, nothing else changes, and the application is told once whatever the field for a valid fix says |
| NmeaData.Gps.OnVtg | src/nmea.c:386-416 | heading and speed are read from their own places, nothing else changes, and the application is told once |
| NmeaSentence.NthField | src/nmea.c:283-290 | in a row of fields joined by commas, skipping n commas leads to field number n of the row |
| NmeaSentence.ReadPosition | src/nmea.c:313-383 | for every row of fields joined by commas with decimal fields where numbers are read, by position: time is the value of field 0, latitude that of field 1 with its sign from S in field 2, longitude that of field 3 with W in field 4, satellites, precision and altitude those of fields 6, 7 and 8, each if and only if its width, sign and fraction allow it |
| NmeaSentence.ReadSpeed | src/nmea.c:386-416 | the same for heading and speed and fields 0 and 6; nothing else changes |
| NmeaData.KeptFraction | src/nmea.c:403-408 | two speed sentences after the start of the program: behind a speed of 1.5 the speed 1 is stored as 1.5 |
| Circle.NearestRootUnique | src/ssd1289.c:454-499 | there is at most one row in each column |
| Circle.EightSymmetries | src/ssd1289.c:483-498 | the raster circle is closed under the eight symmetries of the square |
| Circle.ColumnIsOctants | src/ssd1289.c:483-498 | a column meets the circle in exactly the eight points of one iteration |
| Circle.NothingPastDiagonal | src/ssd1289.c:472-499 | no point of the circle is left when the loop ends |
| Circle.MidpointStep | src/ssd1289.c:472-482 | every iteration keeps the closed forms of the three incremental quantities and the distance bound, and moves down one row at most |
| Circle.MidpointFits | src/ssd1289.c:456-482 | no 32-bit overflow up to a radius of 2^30 |
| Circle.StepDraws | src/ssd1289.c:483-498 | one iteration draws the next column of the circle and nothing else |
| Circle.Display.PlotOctants | src/ssd1289.c:483-498 | the eight writes |
| Circle.Display.DrawCircle | src/ssd1289.c:454-499 | lights exactly the points of the ideal raster circle, or the four axis points for a negative radius, and no others |
| Rtc.NextDayNumber | src/LPC_RTC_CALENDAR.c:104-156 | the following day has the next day number, across month, year and leap boundaries |
| Rtc.DayNumberInverts | src/LPC_RTC_CALENDAR.c:127-153 | the n-th day has number n |
| Rtc.DayNumberOrder | src/LPC_RTC_CALENDAR.c:595-611 | an earlier date has a smaller number |
| Rtc.DayNumberDetermines | src/LPC_RTC_CALENDAR.c:127-153 | the date of a day number is unique |
| Rtc.DowCountsDays | src/LPC_RTC_CALENDAR.c:638-651 | the closed-form weekday is the day count modulo 7 for exactly the dates before March 2100, and one day behind from then on |
| Rtc.DowSteps | src/LPC_RTC_CALENDAR.c:638-651 | it steps by one from day to day |
| Rtc.SecondsInvert | src/LPC_RTC_CALENDAR.c:560-622 | seconds to date and back is the identity, with the leap day counted as meant |
| Rtc.MomentsInvert | src/LPC_RTC_CALENDAR.c:104-156 | date to seconds and back is the identity, with the leap day counted as meant |
| Rtc.ReadBack | src/LPC_RTC_CALENDAR.c:595-622 | for every time in range, reading the set clock is off by exactly the deviation, without 32-bit overflow, and right if and only if the year is common or the month is January |
| Rtc.CountedExactly | src/LPC_RTC_CALENDAR.c:595-622 | for every moment up to the year 2177 the clock reads its seconds exact but for the deviation, unless they reach 2^31 after the epoch: then the signed arithmetic overflows |
| Rtc.Clock.constructor | src/LPC_RTC_CALENDAR.c:86-102 | holds the fields and their weekday |
| Rtc.Clock.SetDateTime | src/LPC_RTC_CALENDAR.c:86-102 | stores the fields and the weekday |
| Rtc.Clock.SetDateTimeWord | src/LPC_RTC_CALENDAR.c:104-156 | sets the clock to the moment of that second, with the weekday of the day count |
| Rtc.Clock.FindYear | src/LPC_RTC_CALENDAR.c:127-135 | the year loop ends with the year that holds the day |
| Rtc.Clock.FindMonth | src/LPC_RTC_CALENDAR.c:137-151 | the month loop ends within the table with the month that holds the day |
| Rtc.Clock.Date2Days | src/LPC_RTC_CALENDAR.c:595-611 | the day number plus the deviation, in 16 bits |
| Rtc.Clock.Time2Long | src/LPC_RTC_CALENDAR.c:560-563 | the seconds of a day count and a time of day, or the overflow of the signed word |
| Rtc.Clock.UnixTime | src/LPC_RTC_CALENDAR.c:614-622 | the seconds of that count after the epoch, or the overflow of the signed arithmetic, for every moment |
| RtcText.MonthRead | src/LPC_RTC_CALENDAR.c:158-187 | the first letters of a printed month select that month |
| RtcText.DateText | src/LPC_RTC_CALENDAR.c:189-315 | the printed date has the month name first and the year last |
| RtcText.TimeText | src/LPC_RTC_CALENDAR.c:189-315 | the printed time has two digits at each of its three places |
| RtcText.TextRoundTrip | src/LPC_RTC_CALENDAR.c:158-315 | for every date from 2000 to 2099 and every time of day, printing with "M d Y" and "H:i:s" and parsing recovers the six fields |
| RtcText.DayNumbers | src/LPC_RTC_CALENDAR.c:201-207 | d prints the day in two digits at least, j without leading zeros |
| RtcText.WeekdayNumbers | src/LPC_RTC_CALENDAR.c:215-221 | N and w print the weekday with Sunday as 7 and as 0 |
| RtcText.WeekdayNames | src/LPC_RTC_CALENDAR.c:209-213 | D and l print the English names of the weekdays, short and long |
| RtcText.YearDay | src/LPC_RTC_CALENDAR.c:223-226 | z prints the days since the first of January plus the deviation of the day count |
| RtcText.MonthNumbers | src/LPC_RTC_CALENDAR.c:232-238 | m prints the month in two digits, n without leading zeros |
| RtcText.MonthNames | src/LPC_RTC_CALENDAR.c:240-244 | M and F print the English names of the months, short and long |
| RtcText.MonthLength | src/LPC_RTC_CALENDAR.c:246-250 | t prints the length of the month, with a leap day every fourth year |
| RtcText.YearNumbers | src/LPC_RTC_CALENDAR.c:252-264 | Y prints the year and L whether it is divisible by four |
| RtcText.ShortYear | src/LPC_RTC_CALENDAR.c:256-258 | y prints the years since 2000 in two digits at least |
| RtcText.HourNumbers | src/LPC_RTC_CALENDAR.c:266-272 | H prints the hour in two digits, G without leading zeros |
| RtcText.HalfDayNumbers | src/LPC_RTC_CALENDAR.c:274-276 | h prints the hour of the half day, 1 to 12, in two digits |
| RtcText.ShortHalfDayNumber | src/LPC_RTC_CALENDAR.c:278-280 | g prints it without leading zeros |
| RtcText.HalfDayNames | src/LPC_RTC_CALENDAR.c:282-286 | a and A print am before noon and pm from noon on |
| RtcText.MinuteNumbers | src/LPC_RTC_CALENDAR.c:290-300 | i and s print minute and second in two digits |
| RtcText.EpochNumber | src/LPC_RTC_CALENDAR.c:302-305 | U prints the seconds of the epoch |
| RtcText.OtherPieces | src/LPC_RTC_CALENDAR.c:306-310 | every other character is printed as it is |
| RtcText.EndingRight | src/LPC_RTC_CALENDAR.c:227-229 | S prints the ordinal ending of the day if and only if the day is not 11, 12 or 13 |
| RtcText.DateLine | src/bluetooth.c:672 | d/m/Y D F prints day, month, year, weekday and month name, each at its place |
| RtcText.TimeLine | src/bluetooth.c:642 | h:i:s a prints the hour of the half day, minute, second and half day, each at its place |
| RtcText.Formatter.DateFormat | src/LPC_RTC_CALENDAR.c:189-315 | appends the piece of each format character in order |
| RtcText.SetDateTimeArray | src/LPC_RTC_CALENDAR.c:158-187 | sets the clock to the parsed fields and the weekday of the parsed date |
| SdDevice.NeverStuck | src/sdcard.c:322-404 | the card automaton always has a faithful answer |
| SdDevice.StoredAt | src/sdcard.c:368-404 | storing sectors changes exactly the blocks meant and puts each sector into its block |
| SdDevice.ReadAsWritten | src/sdcard.c:322-404 | bytes that agree with the blocks stored from other bytes are those bytes |
| SdDevice.ArgumentNames | src/sdcard.c:326-327 | the argument sent for a sector names that sector if and only if its byte address fits 32 bits, for cards addressed by bytes |
| SdCard.Host.WaitForReady | src/sdcard.c:219-229 | ready after the card sent 0xFF, not ready after 50 ticks without; a ready faithful card is no longer busy |
| SdCard.Host.SendFrame | src/sdcard.c:253-265 | the six bytes sent are the command, the argument with its highest byte first, and the checksum that is right for the two commands a card checks; a card that listens has received exactly this command and argument |
| SdCard.Host.SendCommand | src/sdcard.c:242-287 | the answer is what the card sent, unless it sent nothing; a faithful card that answered 0 has started the command |
| SdCard.Host.RecvDataBlock | src/sdcard.c:490-513 | succeeds only on a block led by a token and followed by two checksum bytes, and copies that block, and fails only after 10 ticks without a token; a faithful card sent the addressed block |
| SdCard.Host.Addressed | src/sdcard.c:326-327 | names the sector to a card of the type found if and only if the byte address fits 32 bits |
| SdCard.Host.ReadBlocks | src/sdcard.c:335-338 | the successive blocks, in order |
| SdCard.Host.ReadSector | src/sdcard.c:322-358 | whatever the card sends, success means that as many token-led blocks as asked for arrived and the buffer holds them in order; from a faithful card they are the addressed blocks; failure means that the command was not accepted or the card kept the host waiting for 10 ticks; a multiple transfer is stopped unless the card kept the host waiting for 50 ticks |
| SdCard.Host.SendDataBlock | src/sdcard.c:524-556 | success means that a faithful card stored the block; failure that it stored it or did not take it |
| SdCard.Host.WriteBlocks | src/sdcard.c:380-383 | a faithful card stored a prefix of the sectors |
| SdCard.Host.WriteSector | src/sdcard.c:368-404 | on success a faithful card holds all sectors at the addressed blocks, after a failure a prefix of them, and no other block changed; failure means that the command was not accepted, a block was refused or the card kept the host waiting for 20 ticks; a multiple transfer is stopped unless the card kept the host waiting for 20 ticks, for a stop token sent to a busy card is lost |
| SdCard.Host.WriteThenRead | src/sdcard.c:322-404 | a successful write followed by a successful read of the same range returns the same bytes, for both ways of addressing |
| SdCsd.FieldInBytes | src/sdcard.c:434-453 | a bit field of the 128-bit number is a bit field of the leading bytes |
| SdCsd.SizeRead | src/sdcard.c:445 | C_SIZE of version 1.0 is bits 73 to 62 |
| SdCsd.Size2Read | src/sdcard.c:437 | C_SIZE of version 2.0 is bits 69 to 48 |
| SdCsd.MultRead | src/sdcard.c:447 | C_SIZE_MULT is bits 49 to 47 |
| SdCsd.LenRead | src/sdcard.c:449 | READ_BL_LEN is bits 83 to 80 |
| SdCsd.StructureRead | src/sdcard.c:434 | CSD_STRUCTURE is the top two bits |
| SdCsd.CapacityV1 | src/sdcard.c:442-453 | the sector count times 512 is (C_SIZE+1) * 2^(C_SIZE_MULT+2) * 2^READ_BL_LEN, without overflow, if and only if the two lengths add up to 7 or more |
| SdCsd.CapacityV2 | src/sdcard.c:434-440 | the sector count is (C_SIZE+1) * 1024 if and only if C_SIZE is below 0x3FFFFF, and 0 otherwise |
| MonitorDigits.DigitsDenote | src/monitor.c:170-178 | the digits in the buffer denote what the buffer keeps of the number |
| MonitorDigits.WordKept | src/monitor.c:170-178 | of every 32-bit word all is kept in octal, decimal and hexadecimal, the low half in binary |
| MonitorDigits.DigitMeant | src/monitor.c:410-421 | a character is read as the digit it means if and only if it is not one of those between the digits and the letters in radix 16 |
| MonitorDigits.LetterTestIsDead | src/monitor.c:413-418 | the test for a letter below ten never holds |
| MonitorFormat.Console.Putc | src/monitor.c:27-43 | a line feed is preceded by a carriage return |
| MonitorFormat.Console.FillBuffer | src/monitor.c:164-180 | the buffer holds the number backwards, with its sign |
| MonitorFormat.Console.PutNumber | src/monitor.c:164-189 | prints the number padded to its width on the proper side; MonitorPrinted says what that is |
| MonitorFormat.Console.Xvprintf | src/monitor.c:85-191 | prints the format with its conversions replaced; MonitorPrinted says by what |
| MonitorFormat.Console.Xsprintf | src/monitor.c:205-220 | the same into a buffer, leaving the device alone |
| MonitorPrinted.ZeroPadded | src/monitor.c:164-189 | for every numeric conversion with the flag 0, every width and every word that is not negative to it: as many characters as the width asks for, or as the digits need, all of them digits of the radix, that denote the word when read in that radix |
| MonitorPrinted.NegativeZeroPadded | src/monitor.c:164-189 | for a negative number the zeros stand before the sign, and the digits behind it denote its amount |
| MonitorPrinted.NumberPrinted | src/monitor.c:164-189 | without that flag the digits stand behind spaces, or before them with the flag -, with the sign next to them, and denote the word; the width is filled and not exceeded |
| MonitorPrinted.StringPrinted | src/monitor.c:133-142 | a string conversion prints the string, with a carriage return before each line feed, and spaces on the one side |
| MonitorPrinted.CharacterPrinted | src/monitor.c:143-144 | a character conversion prints the character of the low byte |
| MonitorPrinted.InRow | src/monitor.c:85-191 | a longer format prints its plain text, then its first conversion with the first argument as if that stood alone, then the rest of the format with the other arguments |
| MonitorParse.ReadDigits | src/monitor.c:400-425 | folds the digits of a token into a 32-bit word, or fails at one that is no digit of the radix |
| MonitorParse.Xatoi | src/monitor.c:362-431 | skips spaces, reads sign, radix prefix and digits, and leaves the pointer at the end of the number |
| MonitorParse.AtoiMeant | src/monitor.c:362-431 | at every place of every string xatoi fails if no number is written there, and otherwise returns the number written there and stops behind it, if and only if what stands there is no hexadecimal number with characters between the digits and the letters, no prefix without a digit and no number outside a signed 32-bit word; a number written there is always returned modulo 2^32 |
| MonitorParse.ColonReadsAsTen | src/monitor.c:410-421 | "0x:" is read as 10 |
| MonitorParse.PrefixReadsAsZero | src/monitor.c:377-386 | "0x" is read as 0 although no number stands there |
| MonitorParse.OverflowReadsAsZero | src/monitor.c:408-422 | "0x100000000" is read as 0 |
| MonitorParse.WordReadsAsNegative | src/monitor.c:408-428 | "0x80000000" is read as its negative |
| MonitorRoundTrip.NumeralRead | src/monitor.c:362-431 | printed digits are read back as the number they were printed from |
| MonitorRoundTrip.WidthParsed | src/monitor.c:106-120 | every width written in decimal, on either side, is parsed as that width |
| MonitorRoundTrip.DecimalPrints | src/monitor.c:106-190 | every format whose conversion is a decimal not padded by zeros prints the decimal form of its width and side |
| MonitorRoundTrip.FormatPrints | src/monitor.c:85-191 | the formats "%d" with any width on either side, "0x%x", "0x%X", "0%o" and "0b%b" print the forms read back |
| MonitorRoundTrip.NumberReadBack | src/monitor.c:362-431 | a printed number is read back wherever it stands behind spaces |
| MonitorRoundTrip.PrintThenParse | src/monitor.c:85-431 | for every 32-bit value and every form, widths included, parsing what was printed returns the value, or its low half for binary |
| MonitorRoundTrip.PrintAndRead | src/monitor.c:85-431 | xsprintf followed by xatoi succeeds and returns every 32-bit word, or its low half for binary |
| MonitorRoundTrip.LineReadBack | src/monitor.c:362-431 | successive calls on numbers with a space between each two return them in order |
| Max7219.WordsShift | src/max7219.c:196-215 | sixteen clocks move every word one chip further |
| Max7219.LookupInTable | src/max7219.c:391-407 | the lookup is within the table, and shows the character meant whatever lies behind the table, if and only if the character is below 128 |
| Max7219.LatchDelivers | src/max7219.c:229-252 | a chain with one command and no-ops elsewhere changes one register of one chip |
| Max7219.Driver.WriteShort | src/max7219.c:196-215 | pushes exactly this word into the chain |
| Max7219.Driver.SendData | src/max7219.c:229-252 | for every chain length, the addressed device and no other gets the register value; a device number past the end changes none |
| Max7219.Driver.SetRow | src/max7219.c:571-579 | changes one row of the framebuffer and of the chip, keeping them in agreement |
| Max7219.Driver.SetLed | src/max7219.c:581-597 | changes one bit of both |
| Max7219.Driver.SetCol | src/max7219.c:558-569 | sets exactly the column to the bits of the value, on both |
| Max7219.Driver.DispDigit | src/max7219.c:378-389 | shows a digit on one position: bits 6 to 0 of the row are those of the table, and bit 7 is the decimal point or that of the table; keeps both in agreement |
| Max7219.Driver.DispChar | src/max7219.c:391-407 | shows the byte at the index on one position, with the decimal point in bit 7, keeping both in agreement, and tells whether that was in the table: exactly for a position off the display or a character below 128 |

## Left out

- Enc28j60.Driver.ReadBuffer: speaks only of reading the oldest packet, which is what the driver reads.
- Enc28j60.Driver.PhyRead: PHY words change by writes only; status words that change by themselves, and words that refuse a write, are not modelled.
- Enc28j60.Driver.PacketReceive: maxlen is at least 1; the source turns 0 into a limit of 65535 bytes.
- Enc28j60.Driver.PacketSend: a frame counts as sent when the chip is told to send it, also if it is cut off later; the seven bytes of status that the chip writes behind a frame it has sent are not modelled; behind a frame of more than 0x5F9 bytes they do not fit the memory any more.
- Enc28j60.Driver.HardwareTurn: the chip acts between SPI operations, not within one; a packet is stored at once with its header.
- ENC28J60: the dummy byte before MAC and MII registers, register values after reset (the start-up relies on none), bit-field operations on MAC registers being refused by the chip, power saving and DMA.
- Bme280Settings.Driver.SetOsrSettings: failing transactions leave the sensor as it is; a bus that reports failure after the sensor took the value is not modelled.
- BME280: humidity compensation, the 32-bit pressure variant, the floating-point variant, calibration parsing, null-pointer checks.
- NmeaData.Gps.OnGga: starts behind the identifier of the sentence; the comparison of the identifier, and a sentence that ends right behind it, for which the source reads past the end of the string, are not modelled.
- NMEA: the branch for RMC sentences, which computes on the address of a character instead of reading the next one, and the UART.
- Circle.Display.DrawCircle: a pixel write adds a point to a set; clipping, colour and the display bus are not modelled. Radii beyond 2^30 overflow 32 bits.
- RtcText.Formatter.DateFormat: requires the text to fit the static buffer; the source does not check it.
- RtcText.SetDateTimeArray: requires strings as long as the parser reads and a first letter that begins a month; the source leaves the month undefined otherwise.
- RTC: registers, interrupts and the alarm.
- SdCard.Host.SendCommand: the variant that copies further response bytes, chip select as a pin, and the clock rate.
- SD card: the initialisation and card type detection, the erase block size of the configuration, application commands.
- MonitorFormat.Console.Xvprintf: requires arguments that suit the format, as C does.
- Console: line input and memory dump.
- Max7219.Driver.SetRow: `max7219_clear` writes the chip and not the framebuffer and is not part of the agreement; blinking, scrolling and number printing are built from the modelled calls.
- Drivers that only pass bytes to registers (nRF24, HMC5883L, MCP23008, keypad, one-wire, Bluetooth), board support, fonts and tables.
- Real-time bounds: timers count ticks that come at arbitrary moments.
