# Thermostat display firmware: a verified model of its core

This project models the logic core of a room thermostat with a display, a
BME280 climate sensor and a web interface. The firmware runs on an ESP32 and the
interface is a JavaScript page. These parts are modelled:

- **The daily history buffer** (`History`, `HistoryFormat`, `Sample`). It holds
  1440 minute-indexed samples and a dated header in PSRAM. A sample is
  stored at its minute, and the day rolls over at midnight. The buffer is saved
  to and loaded from `/spiffs/log_YYYYMMDD.bin`: a 12-byte header followed by
  1440 records of 12 bytes. On load, the buffer is reconciled with the current
  minute. There are also statistics over the valid minutes.
- **The log reader** (`LogReader`). It checks the file header, decodes records,
  renders the JSON the page plots (with `null` for sentinel readings) and
  lists the saved days.
- **The sensor simulator** (`SensorSim`). A hysteresis thermostat drives a
  simulated heater. Humidity and pressure bounce between fixed limits.
- **The WebSocket client table and the Wi-Fi diagnostics** (`WsClients`): the
  register, find, unregister, clean-up and disconnect operations, the RSSI
  percentage and bar, and the connection uptime.
- **The BME280 helpers** (`Bme280`): assembly of the calibration words from the
  trimming registers, unpacking of the raw ADC words, and the Bosch
  integer compensation formulas. They also cover the read sequence with
  its error cases.
- **The HTTP server's logic** (`HttpServer`): the content type chosen for a
  path, and the running/start/stop state of the server handle.
- **The web page's programme logic** (`Cronocode`). This covers:
  - the correction and hysteresis counters and the signed display of the correction;
  - the text encoding of the 230-value programme sent over the WebSocket, and its restore;
  - showing and saving the four 50-slot banks;
  - the chart zoom driven by the mouse wheel.

Fixed-width integers are subset types of `int` (`Base`). Wrap-around and
truncation are written out where the source depends on them:
- C's truncating division is `CDiv`;
- a signed right shift is floor division (`Bme280.Shr`);
- a cast to `int16_t` or `int8_t` is `AsI16`/`AsI8`.

Every quantity keeps the integer unit its owner stores it in:
- a history sample holds temperature and setpoint in hundredths of a degree,
  humidity in whole percent and pressure in tenths of a hectopascal;
- the simulator keeps temperature, humidity and pressure in hundredths;
- the BME280 compensation yields hundredths of a degree, 1024ths of a
  percent and pascals times 256;
- the page works in tenths of a degree.

Five inputs of the source become parameters:
- the file system is a map from path to bytes;
- a write to flash is a `Device` (it opens, and it takes a given number of bytes);
- whether `fopen` succeeds on a file that exists is a flag (`opens`), both for
  the history manager's load and for the log reader;
- the clock is the current date and minute;
- the log request's query is a `DateQuery`: no query, a query that cannot be
  copied out, or the outcome of looking up its `date` key.

The contents of freshly allocated PSRAM are a parameter too (`memory`).

## Model

| member | source | states |
|---|---|---|
| Base.CDiv | src/bme280_sensor.cpp:189 | C division truncates toward zero: for a positive divisor the quotient is the floor for non-negative dividends and the ceiling for negative ones |
| Base.BitAnd | src/log_reader.cpp:113 | `&` of two non-negative values is at most either operand, and its lowest bit is set exactly when both operands' lowest bits are |
| Base.BitAndLaws | src/log_reader.cpp:113 | `&` is symmetric, and a value masked with itself is unchanged |
| Base.U16Of | include/comune.h:77-90 | a little-endian 16-bit field is the value whose low byte is the first byte and whose high byte is the second |
| Base.U16Bytes | include/comune.h:77-90 | writing a 16-bit field gives two bytes that read back as the same value |
| Base.AsI16 | src/log_reader.cpp:102 | reading an unsigned 16-bit pattern as `int16_t` is negative exactly when the top bit is set, and is congruent to the pattern modulo 2^16 |
| Base.AsU16 | src/log_reader.cpp:102 | the bit pattern of a signed 16-bit value reads back as that value |
| Base.I16RoundTrip | src/log_reader.cpp:102 | pattern to signed to pattern is the identity |
| Base.AsI8 | src/bme280_sensor.cpp:149 | `(int8_t)` of a byte is negative exactly when the byte is at least 0x80, and is congruent to it modulo 256 |
| Base.U32Of | src/log_reader.cpp:68-74 | the little-endian 32-bit word is the one whose four bytes, low to high, are the given bytes |
| Base.Overlay | src/history_manager.cpp:320-332 | a short read replaces exactly the leading bytes it delivered, keeps every later byte of the destination, and keeps its length |
| Base.OverlayEmpty | src/history_manager.cpp:320-332 | a read that delivers nothing leaves the destination as it was |
| Base.OverlayFull | src/history_manager.cpp:320-332 | a complete read leaves exactly what was read |
| Text.Decimal | src/history_manager.cpp:439-444 | `%d` of a non-negative value is a non-empty run of digits that denotes the value, with no leading zero except for 0 itself |
| Text.Padded | src/history_manager.cpp:439-444 | `%0Nd` yields digits denoting the value, width N or the natural width when that is wider |
| Text.PaddedWidth | src/history_manager.cpp:439-444 | a value below 10^N padded to width N has exactly N characters |
| Sample.Empty | src/history_manager.cpp:76-90 | a cleared slot is invalid and still carries its own minute |
| Sample.FlagBits | include/comune.h:92-95 | the relay, manual and exception flags are bits 0, 1 and 2 of the flag byte |
| Sample.FlagMasksDisjoint | include/comune.h:92-95 | the three flag masks share no bit, and a byte carries any flag exactly when its low three bits are not all zero |
| Sample.Decode | include/comune.h:77-90 | each field of the packed record is read from its own little-endian bytes: minute 0-1, temperature 2-3, humidity 4, flags 5, setpoint 6-7, bank 8, reserved 9, pressure 10-11 |
| Sample.DecodeEncode | include/comune.h:77-90 | a record written to its 12 bytes reads back unchanged |
| Sample.EncodeDecode | include/comune.h:77-90 | every 12-byte image is the encoding of the record read from it |
| Sample.EncodeInjective | include/comune.h:77-90 | different records have different images |
| HistoryFormat.FileSizeValue | include/history_manager.h:26-29 | a day file is 17292 bytes: 12 of header and 1440 records of 12 |
| HistoryFormat.DecodeHeader | include/history_manager.h:41-49 | the header fields sit at magic 0-3, version 4, year 5-6 little-endian, month 7, day 8, count 9-10, reserved 11 |
| HistoryFormat.DecodeEncodeHeader | include/history_manager.h:41-49 | a header written to 12 bytes reads back unchanged |
| HistoryFormat.EncodeDecodeHeader | include/history_manager.h:41-49 | every 12-byte image is the encoding of the header read from it |
| HistoryFormat.EncodeSamplesAt | src/history_manager.cpp:287-295 | in the written sample array, record i occupies bytes 12i to 12i+12 and holds the encoding of slot i |
| HistoryFormat.Image | src/history_manager.cpp:261-302 | the day file is 17292 bytes and starts with the encoded header |
| HistoryFormat.ImageRecordAt | src/history_manager.cpp:261-302 | the record at offset 12 + 12i of a day file decodes to slot i |
| History.Cleared | src/history_manager.cpp:76-90 | after a clear, every slot is the empty record for its minute |
| History.ClearSamples | src/history_manager.cpp:76-90 | a clear gives every slot its minute and the sentinels (temperature and setpoint -32768, humidity 255, pressure 0, flags, bank and reserved 0), resets the current minute and the dirty flag, and touches nothing else |
| History.InitHeaderForDate | src/history_manager.cpp:62-71 | a new header has magic "TLOG", version 1, the given date, a zero count and a zero reserved byte |
| History.FileNameLayout | src/history_manager.cpp:439-444 | the file name is `/spiffs/log_` + 8 digits + `.bin` (24 characters), and the digits denote year, month and day in that order |
| History.FileNameInjective | src/history_manager.cpp:439-444 | different dates (with 4-digit years and 2-digit months and days) have different file names |
| History.AddSample | src/history_manager.cpp:177-199 | add_sample is refused before init or without memory, and for a minute past the day; otherwise it stores the sample at its minute and nothing else, raises the count to at least minute+1, records the minute and marks the buffer dirty |
| History.GetSample | src/history_manager.cpp:407-429 | get_sample gives the stored slot, with `NOT_FOUND` exactly when its temperature is the sentinel; an uninitialised buffer or out-of-day minute yields an error and no sample |
| History.GetSampleCount | src/history_manager.cpp:431-437 | the count is the header's high-water mark, 0 before init, and never above 1440 in a consistent buffer |
| History.GetBuffer | src/history_manager.cpp:399-405 | the buffer is exposed exactly when initialised |
| History.AddThenGet | include/history_manager.h:145-152 | reading the minute just written gives back that sample, `OK` when it is valid and `NOT_FOUND` otherwise |
| History.LastWriteWins | src/history_manager.cpp:177-199 | writing the same minute twice leaves what a single write of the second sample leaves |
| History.ScanStep | src/history_manager.cpp:468-483 | folding in one valid sample updates the minimum and maximum, counts it, counts the heater minute when the relay bit is set, adds its temperature to the sum, and keeps the sum between count times minimum and count times maximum |
| History.ScanSlots | src/history_manager.cpp:462-483 | the scan counts exactly the valid slots and the valid slots with the relay on; its minimum and maximum bound every valid temperature and are attained unless they are still the starting 10000 and -10000; its sum is the sum of the valid temperatures |
| History.MeanBounds | src/history_manager.cpp:471-477 | adding a value inside widened bounds keeps the running sum inside count times the bounds |
| History.MeanBetween | src/history_manager.cpp:485-487 | the mean of a sum bounded by count times minimum and maximum lies between them |
| History.ValidSnoc | src/history_manager.cpp:468-478 | extending the scanned prefix by one slot adds one valid index exactly when that slot is valid |
| History.HeaterSnoc | src/history_manager.cpp:468-483 | extending by one slot adds one heater minute exactly when that slot is valid with the relay bit set |
| History.IndicesSnoc | src/history_manager.cpp:468-483 | the two counts above, together |
| History.GetStats | src/history_manager.cpp:455-489 | stats are refused without an initialised buffer; heater minutes count the valid slots with the relay on; with no valid slot everything is zero; otherwise min and max bound every valid temperature, are attained (unless still at their 10000 and -10000 starting values), and the mean is the sum of the valid temperatures divided by their number and lies between min and max |
| History.StatsOfClearedBuffer | include/history_manager.h:183-192 | a cleared buffer has all-zero statistics |
| History.Save | src/history_manager.cpp:261-302 | a save is refused without an initialised buffer and fails when the file does not open; it succeeds exactly when the whole image fits, then writing the header and 1440 records to the date's file and clearing the dirty flag; a short write leaves the truncated file and a still-dirty buffer |
| History.SaveCreatesFile | src/history_manager.cpp:446-453 | once the file opens, the saved day's file exists even after a short write, and no save removes an existing file |
| History.Chunk | src/history_manager.cpp:340-342 | each record read takes at most 12 bytes |
| History.ReadSlotsAt | src/history_manager.cpp:340-349 | a slot whose record is fully in the file is that record decoded; a slot past the end of the file keeps what memory held |
| History.ReadSlotsOfImage | src/history_manager.cpp:340-349 | reading back a written sample array gives the slots that were written |
| History.ReadHeaderOfImage | src/history_manager.cpp:319-325 | the header read from a day file is the header written to it |
| History.Retired | src/history_manager.cpp:359-368 | a slot after the current minute is invalidated: temperature, setpoint, humidity and pressure become sentinels and flags 0, keeping its minute, bank and reserved byte |
| History.RetireFuture | src/history_manager.cpp:356-368 | slots up to the current minute are unchanged and every slot after it is invalid |
| History.LastValidUpTo | src/history_manager.cpp:384-391 | finds the last valid slot at or before a minute, or reports that none is valid |
| History.HighWaterScanIsLastValid | src/history_manager.cpp:376-382 | the loop's high-water mark is one past the last valid slot up to the current minute, or 0 when there is none |
| History.Reconcile | src/history_manager.cpp:353-391 | load's reconciliation keeps slots up to now, retires valid future slots (marking the buffer dirty exactly when there was one), sets count to one past the last valid slot up to now and the current minute to that slot (both 0 when none), and leaves every valid slot below the count |
| History.Load | src/history_manager.cpp:304-397 | load fails without memory, with `NOT_FOUND` when there is no file or it does not open, with a partial header on a short file and `INVALID_VERSION` on a wrong magic; otherwise the buffer is the file's header and records, over the old memory where the file is short, reconciled with the current minute |
| History.LoadNotFoundIffMissing | src/history_manager.cpp:313-317 | with memory, a load reports `NOT_FOUND` exactly when `history_file_exists` (a `stat`) says the day has no file or the file does not open; so for a file that opens the two agree |
| History.SaveThenLoad | src/history_manager.cpp:261-397 | loading the file a successful save wrote, when it opens, gives back the saved header and samples, reconciled with the current minute; every slot up to now is exactly as saved |
| History.CheckDayChange | src/history_manager.cpp:227-259 | the day changes exactly when an initialised buffer's date differs from today; then dirty data with a non-zero count is saved first, and the buffer restarts cleared with today's header; otherwise nothing changes |
| History.DayChangeLeavesEveryMinuteEmpty | include/history_manager.h:109-119 | after a day change every minute of the new day reads `NOT_FOUND` |
| History.Record | src/history_manager.cpp:201-225 | history_record first rolls the day over, then stores at the current minute a sample with the given readings, bank, relay and manual flags, no exception flag and reserved 0; every other slot and the file system are as the roll-over left them, the count becomes at least minute+1, the current minute is the recorded one and the buffer is dirty; it is refused before init and without memory |
| History.RecordThenGet | src/history_manager.cpp:201-259 | a recorded minute reads back with the recorded temperature (`OK` exactly when it is not the sentinel); on the same day no other slot and no file changes; across midnight unsaved data of the old day is saved first and every other minute of the new day reads `NOT_FOUND` |
| History.Unallocated | src/history_manager.cpp:23 | the module starts with no memory, not initialised and clean |
| History.HistoryInit | src/history_manager.cpp:110-159 | init fails with `NO_MEM` when PSRAM is unavailable; otherwise it loads today's file into the freshly allocated memory and falls back to a cleared buffer with today's header when the load fails, including when the file does not open |
| History.BootKeepsStaleMemory | src/history_manager.cpp:110-159 | (finding) with a file of only a header and PSRAM that happens to be zero, every minute up to now reads as a valid 0.00 degree sample |
| History.ZeroMemory | src/history_manager.cpp:125-127 | zero-filled memory reads as valid 0.00 degree samples |
| History.HistoryInitCleared | src/history_manager.cpp:110-159 | (corrected) with memory cleared before the load, a slot the file does not cover is empty, and a missing or unopenable file gives a cleared buffer with today's header |
| History.UnreadSlotsStayEmpty | src/history_manager.cpp:340-349 | a load into a cleared buffer leaves every slot past the end of the file empty |
| History.Deinit | src/history_manager.cpp:161-175 | deinit saves when there is dirty data, then frees the memory and drops the initialised flag |
| LogReader.ParseLogHeader | include/log_reader.h:18-28 | the reader's packed header reads the magic as a little-endian word and the other fields at the writer's offsets |
| LogReader.LogMagicIsWriterMagic | include/log_reader.h:18 | the reader's 0x474F4C54 is the writer's "TLOG" read as a little-endian word |
| LogReader.MagicCheckAgrees | src/log_reader.cpp:68-74 | the reader's magic test passes exactly when the first four bytes are "TLOG" |
| LogReader.ReaderSeesWriterHeader | src/log_reader.cpp:59-74 | the reader parses every field of a header the history manager wrote as written |
| LogReader.DecodeRecord | src/log_reader.cpp:101-106 | a record's minute, temperature, humidity, flags, setpoint and pressure come from bytes 0-1, 2-3, 4, 5, 6-7 and 10-11 |
| LogReader.DecodeRecordOfEncode | src/log_reader.cpp:101-106 | decoding a written record gives that sample's shown fields |
| LogReader.SavedFileRecord | src/log_reader.cpp:91-106 | record i of a saved day file decodes to slot i |
| LogReader.HundredthsRoundTrip | src/log_reader.cpp:118-128 | the `%.2f` rendering of a hundredths value parses back to that value, negatives included |
| LogReader.ParseShape | src/log_reader.cpp:118-128 | an optional minus, digits, a dot and two digits denote the value with that sign |
| LogReader.NullExactlyForSentinels | src/log_reader.cpp:118-140 | a field prints `null` exactly when it holds its sentinel; otherwise temperature prints its hundredths and humidity and pressure their plain value |
| LogReader.Heat | src/log_reader.cpp:113 | `heat` is 1 exactly when the relay flag bit is set, else 0 |
| LogReader.ClockLabel | src/log_reader.cpp:109-110 | the `%02d:%02d` label is digits, a colon and two digits, the minutes below 60, and hours times 60 plus minutes is the minute of day |
| LogReader.JoinedCons | src/log_reader.cpp:142-148 | the rows are joined with commas: a first row, then a comma before each further row |
| LogReader.CommaEachSnoc | src/log_reader.cpp:142-148 | appending a row appends a comma and that row |
| LogReader.RowFields | src/log_reader.cpp:143-146 | the readings start with `"temp":` and the temperature field, and end with `,"press":` and the pressure field |
| LogReader.RowJson | src/log_reader.cpp:108-142 | a record's object starts `{"t":"`, then the `HH:MM` label of its minute and a closing quote, and ends with `}` |
| LogReader.RowsJson | src/log_reader.cpp:142-148 | one JSON object per row, in order |
| LogReader.LogPath | src/log_reader.cpp:38-39 | the path is `/spiffs/log_`, the date and `.bin` |
| LogReader.LogPathInjective | src/log_reader.cpp:38-39 | different dates open different files |
| LogReader.QueryDate | src/log_reader.cpp:21-34 | no query, a missing `date` key or a value too long for the 16-byte buffer gives the default 20251221; a query that cannot be copied leaves the date empty; otherwise the value is used; the date always fits the buffer |
| LogReader.LogPathIsHistoryFile | src/log_reader.cpp:39 | for a day's 8 digits the reader opens the same file the history manager writes |
| LogReader.ReadRecords | src/log_reader.cpp:91-149 | the reader emits the first min(count, whole records in the file) records, each decoded from its 12-byte slot |
| LogReader.Meta | src/log_reader.cpp:84-88 | the metadata starts `"date":"` and ends with `","samples":`, the header's sample count in decimal and `,"data":[`; for a 4-digit year and 2-digit month and day it holds the date as YYYY-MM-DD, with the same digits as the day's file name |
| LogReader.ServeLog | src/log_reader.cpp:41-158 | a missing file is a 404; a file that exists but does not open is a 500 "Cannot open log file"; a short header or wrong magic is a 500 with its message; otherwise the body is the metadata and the comma-joined rows for the records the header count and the file both hold |
| LogReader.LogData | src/log_reader.cpp:19-158 | the file served is the one named by the date the query settles on (`QueryDate`), with every outcome above |
| LogReader.DateOfName | src/log_reader.cpp:304-306 | the listed date is up to 8 characters after `log_` |
| LogReader.ListedDates | src/log_reader.cpp:280-322 | a date is listed exactly when some directory entry passes the name filter and yields that date |
| LogReader.Quoted | src/log_reader.cpp:308-311 | each listed date is a JSON string |
| LogReader.ListBody | src/log_reader.cpp:280-322 | the listing is a JSON array, `[]` when the directory does not open; otherwise its items, comma-separated in directory order, are exactly the quoted dates of the names the filter keeps, so every log file appears and nothing else does |
| LogReader.SavedNameListed | src/log_reader.cpp:301-306 | every file the history manager saves passes the filter and lists under its own date |
| LogReader.LooseNameFilter | src/log_reader.cpp:301-302 | the filter admits names that merely contain `.bin`, such as a backup, and lists a garbage date for them |
| SensorSim.Init | src/sensor_simulator.cpp:23-39 | the simulator starts at the given readings, both oscillations rising, heater off, setpoint 20.00 |
| SensorSim.Bounce | src/sensor_simulator.cpp:78-98 | one oscillation step stays within its limits, reverses at the top and at the bottom, and otherwise moves by one step in its direction |
| SensorSim.Update | src/sensor_simulator.cpp:41-99 | the temperature moves one hundredth toward the heater's effect inside 5.00..35.00; the heater switches off at setpoint+hysteresis and on below setpoint; humidity and pressure bounce within 40-60 % and 990-1010 hPa |
| SensorSim.SetSetpoint | src/sensor_simulator.cpp:101-107 | only the setpoint changes |
| SensorSim.HumidityPercent | src/sensor_simulator.cpp:115-119 | for humidity that fits a byte once rounded, the reading is the hundredths rounded half up to a whole percent |
| SensorSim.PressureHpa | src/sensor_simulator.cpp:121-125 | for pressure that fits 16 bits once rounded, the reading is the hundredths rounded half up to a whole hPa |
| SensorSim.GettersRound | src/sensor_simulator.cpp:115-125 | the getters round humidity and pressure to the nearest whole unit |
| SensorSim.GettersAfterUpdate | include/sensor_simulator.h:1-10 | after an update the getters read 40-60 % and 990-1010 hPa |
| SensorSim.GettersAfterInit | src/sensor_simulator.cpp:23-39 | the getters give back the initial humidity and pressure |
| SensorSim.RunStaysInBands | src/sensor_simulator.cpp:41-99 | after any positive number of updates every reading is inside its band, and directions stay plus or minus one |
| SensorSim.HeaterWarms | include/sensor_simulator.h:57-61 | with the heater on and below the switch-off point the temperature rises one hundredth per second |
| WsClients.Register | src/wifi.cpp:41-49 | a client is appended at the count while there is room, and ignored when the table is full; a negative count indexes outside the array |
| WsClients.Find | src/wifi.cpp:51-58 | gives the first index holding the descriptor, or -1 exactly when none does |
| WsClients.Unregister | src/wifi.cpp:60-67 | a known descriptor's slot becomes -1 in place and the count drops by one; an unknown one changes nothing |
| WsClients.DisconnectReset | src/wifi.cpp:230 | a Wi-Fi disconnect zeroes the count and leaves the array |
| WsClients.SurvivorsMembers | src/wifi.cpp:103-123 | a descriptor survives clean-up exactly when it was live and is empty or still valid |
| WsClients.Cleanup | src/wifi.cpp:103-123 | clean-up compacts the live entries to those that survive, in order, and leaves the entries past the count alone |
| WsClients.RemoveAt | src/wifi.cpp:115-120 | removing index i shifts the entries after it down one, leaving the last live slot -1 only when it was the one removed |
| WsClients.UnregisterLosesClient | src/wifi.cpp:41-67 | (finding) register 5 and 6, unregister 5, register 7: the live part is [-1, 7] and client 6 is gone |
| WsClients.UnregisterAfterDisconnectUnderflows | src/wifi.cpp:60-67 | (finding) register 5, disconnect, unregister 5: the count becomes -1 and the next register writes outside the array |
| WsClients.UnregisterCompacting | src/wifi.cpp:60-67 | (corrected) unregister removes the first occurrence from the live part and keeps the table sound |
| WsClients.DisconnectClearing | src/wifi.cpp:230 | (corrected) a disconnect empties the live part and keeps the table sound |
| WsClients.RegisterAppends | src/wifi.cpp:41-49 | on a sound table a register appends to the live part, or leaves it when full |
| WsClients.CompactingKeepsClient | src/wifi.cpp:41-67 | with the corrected unregister, the same sequence leaves [6, 7] |
| WsClients.ClearingPreventsUnderflow | src/wifi.cpp:60-67 | after the corrected disconnect an unregister leaves the count at 0 |
| WsClients.RemoveFirst | src/wifi.cpp:60-67 | removing a present descriptor shortens the live list by one; an absent one changes nothing |
| WsClients.RssiPercent | src/wifi.cpp:388-394 | the percentage is one of 100, 80, 60, 40, 20, 10; 100 exactly from -50 dBm up, 10 exactly below -90 |
| WsClients.RssiMonotone | src/wifi.cpp:388-394 | a stronger signal never shows a lower percentage |
| WsClients.Repeat | src/wifi.cpp:396-401 | n copies of one character |
| WsClients.RssiBar | src/wifi.cpp:396-401 | the bar has one bar character per ten percent followed by dots to ten characters |
| WsClients.UptimeSeconds | src/wifi.cpp:403-406 | uptime is 0 when no connection was timed, otherwise the elapsed seconds when they fit in 32 bits |
| WsClients.UptimeParts | src/wifi.cpp:407-409 | hours, minutes and seconds recompose the uptime, with minutes and seconds below 60 |
| Bme280.Signed16 | src/bme280_sensor.cpp:115-127 | a signed calibration word is the little-endian pattern of its two bytes |
| Bme280.LowNibbleJoin | src/bme280_sensor.cpp:147 | H4 is the first byte times 16 plus the low nibble of the shared byte |
| Bme280.HighNibbleJoin | src/bme280_sensor.cpp:148 | H5 is the third byte times 16 plus the high nibble of the shared byte |
| Bme280.ReadTempPressCalib | src/bme280_sensor.cpp:115-127 | the temperature and pressure block leaves the humidity words as they were |
| Bme280.TempPressRoundTrip | src/bme280_sensor.cpp:115-127 | the T1-T3 and P1-P9 words read from their 24-byte register image are the words that were written there |
| Bme280.SignedWordRoundTrip | src/bme280_sensor.cpp:116 | a signed word's two register bytes read back as that word |
| Bme280.ReadHumidityCalib | src/bme280_sensor.cpp:129-150 | H1, H2 and H3 come straight from their registers; H4 and H5 share the nibbles of one byte and are 12-bit; H6 is the signed last byte; the T/P words stay |
| Bme280.H45RoundTrip | src/bme280_sensor.cpp:147-148 | any two 12-bit H4, H5 values packed into three register bytes read back unchanged |
| Bme280.H45BytesInverse | src/bme280_sensor.cpp:147-148 | the three H4/H5 register bytes are determined by the two words read from them |
| Bme280.ReadCalibration | src/bme280_sensor.cpp:103-154 | calibration succeeds exactly when the T/P block and, on a BME280, H1 and the humidity block all transfer; a failed transfer stops there with what was stored so far, so an H1 read before a failed humidity block is kept while H2-H6 stay as they were |
| Bme280.Raw20 | src/bme280_sensor.cpp:359-361 | a 20-bit ADC word is below 2^20 |
| Bme280.Raw16 | src/bme280_sensor.cpp:361 | the 16-bit humidity word has the first byte high and the second low |
| Bme280.Raw20RoundTrip | src/bme280_sensor.cpp:359-361 | every 20-bit value is the unpacking of its three register bytes |
| Bme280.Raw20Injective | src/bme280_sensor.cpp:359-361 | equal 20-bit words come from equal MSB and LSB and the same top nibble of XLSB |
| Bme280.ShrFloor | src/bme280_sensor.cpp:164-193 | `x >> k` is the integer whose multiple of 2^k is at most x and within 2^k of it, negatives included |
| Bme280.ShrShr | src/bme280_sensor.cpp:164-193 | two arithmetic right shifts in a row are one shift by their sum |
| Bme280.Pow2Add | src/bme280_sensor.cpp:181-193 | `1 << (a + b)` is `(1 << a) << b` |
| Bme280.CompensateTemperature | src/bme280_sensor.cpp:160-171 | the temperature in hundredths is 5 t_fine / 256 rounded to nearest |
| Bme280.CompensatePressure | src/bme280_sensor.cpp:173-195 | a zero divisor gives pressure 0 instead of dividing |
| Bme280.PressureWithoutCalibration | src/bme280_sensor.cpp:182-186 | with P1 = 0 the divisor vanishes and the pressure reads 0 |
| Bme280.CompensateHumidity | src/bme280_sensor.cpp:197-216 | humidity, in 1024ths of a percent, is the clamped intermediate divided by 4096, so 0 to 100 % |
| Bme280.Read | src/bme280_sensor.cpp:342-385 | a read before init is refused untouched; a bus error or a skipped (0x80000) temperature or pressure channel fails with the result marked invalid; a good read gives the compensated values, humidity 0 on a BMP280, and is marked valid exactly when it succeeds |
| Bme280.ValidReadingHumidityInRange | src/bme280_sensor.cpp:373-379 | a successful read's humidity is between 0 and 100 % |
| HttpServer.Dispatch | src/http_server.cpp:22-32 | first-hit dispatch: the type of the first pattern found, the fallback when none is |
| HttpServer.Mime | src/http_server.cpp:22-32 | the fallback type exactly when no pattern occurs in the path |
| HttpServer.MimeIsFirstHit | src/http_server.cpp:22-32 | `mime_from_path` is first-hit dispatch by substring over its table, in its order |
| HttpServer.SubstringNotSuffix | src/http_server.cpp:23 | a path like `a.html.gz` is served as HTML, since matching is by substring |
| HttpServer.JsonContainsJs | src/http_server.cpp:25-26 | every path containing `.json` contains `.js` |
| HttpServer.JsonUnreachable | src/http_server.cpp:25-26 | (finding) no path is ever given `application/json` |
| HttpServer.JsonServedAsJavascript | src/http_server.cpp:25-26 | (finding) `data.json` is served as `application/javascript` |
| HttpServer.DataJsonHits | src/http_server.cpp:22-32 | a dotted pattern occurs in `data.json` exactly when it is a prefix of `.json` |
| HttpServer.MimeJsonFirst | src/http_server.cpp:22-32 | (corrected) the fallback exactly when no pattern of the reordered table occurs |
| HttpServer.MimeJsonFirstIsFirstHit | src/http_server.cpp:22-32 | the corrected chain is first-hit dispatch over the table with `.json` before `.js` |
| HttpServer.JsonFirstServesJson | src/http_server.cpp:22-32 | with `.json` first, a JSON path without `.html` or `.css` is served as JSON, and every path without `.json` gets the type it had |
| HttpServer.Running | src/http_server.cpp:172-174 | the server runs exactly when its handle is not null |
| HttpServer.Start | src/http_server.cpp:176-224 | a running server is left alone; otherwise the server runs exactly when `httpd_start` gave a handle |
| HttpServer.Stop | src/http_server.cpp:226-232 | after a stop the server is not running; stopping a stopped server changes nothing |
| HttpServer.StartStopIdempotent | src/http_server.cpp:172-232 | stop is idempotent and a second start of a running server is a no-op |
| HttpServer.RestartAfterStop | src/http_server.cpp:172-232 | after a stop a successful start runs the new handle |
| Cronocode.CorrectionUp | data/cronocode.js:201-207 | the correction byte, read as signed, rises by one tenth and stops at +12.7 |
| Cronocode.CorrectionDown | data/cronocode.js:208-214 | the correction byte, read as signed, falls by one tenth and stops at -12.8 |
| Cronocode.CorrectionStepsCancel | data/cronocode.js:201-214 | a step up then down, or down then up, away from the limits, restores the byte |
| Cronocode.HysteresisUp | data/cronocode.js:216-221 | the hysteresis byte rises by one, saturating at 255 |
| Cronocode.HysteresisDown | data/cronocode.js:222-228 | the hysteresis byte falls by one, saturating at 0 |
| Cronocode.HysteresisStepsCancel | data/cronocode.js:216-228 | up then down, or down then up, away from the limits, restores the byte |
| Cronocode.Consegno | data/cronocode.js:332-335 | the correction is shown with `+` exactly below 128, and the shown tenths with their sign equal the byte read as signed |
| Cronocode.ConsegnoInjective | data/cronocode.js:332-335 | different correction bytes are displayed differently |
| Cronocode.Pad3 | data/cronocode.js:439 | `padStart(3, '0')` right-aligns a short text in three characters and never truncates a long one |
| Cronocode.Pad3OfValue | data/cronocode.js:439-442 | a value 0-999 is sent as exactly three digits denoting it |
| Cronocode.Encoded | data/cronocode.js:437-445 | the sent text has value j's three digits at 4j+4..4j+6 and keeps every other character of the template |
| Cronocode.SendSettings | data/cronocode.js:435-464 | the loop produces the encoded text, and the restore copy is that text without its first two characters |
| Cronocode.LeadingDigits | data/cronocode.js:234 | the longest prefix made of digits |
| Cronocode.LeadingDigitsStop | data/cronocode.js:234 | a digit run ending at a non-digit is the leading digits |
| Cronocode.ParseInt | data/cronocode.js:234 | `parseInt(s, 10)`: NaN on an empty text or one that starts with neither a sign nor a digit; a leading digit gives a non-negative number |
| Cronocode.ParseThreeDigits | data/cronocode.js:234 | three digits followed by a non-digit parse as the value they denote |
| Cronocode.From | data/cronocode.js:234 | `slice(k)` is the suffix from k, empty past the end |
| Cronocode.Restore | data/cronocode.js:232-238 | the restore yields one parsed value per programme entry |
| Cronocode.RestoreOne | data/cronocode.js:232-238 | entry i of a sent programme parses back from offset 2+4i of the copy |
| Cronocode.RestoreAfterSend | data/cronocode.js:232-238 | restoring from the copy of a sent programme gives back every 0-999 value, given a template with separators in place |
| Cronocode.NegativeValueLost | data/cronocode.js:439 | a negative value such as -5 goes out as `0-5` and comes back as 0 |
| Cronocode.BankLayout | data/cronocode.js:351-355 | the four 50-slot banks tile entries 0-199 without overlap |
| Cronocode.ShowBank | data/cronocode.js:344-360 | with unsaved edits, showing another bank is refused; otherwise the edited and backup copies become that bank and nothing else changes |
| Cronocode.SaveBank | data/cronocode.js:421-433 | saving writes the edited copy into the target bank only, refreshes the backup, sends the encoded programme and shows the target bank |
| Cronocode.SaveThenShow | data/cronocode.js:421-433 | after a save, showing the target gives the edits and showing any other bank gives it unchanged; entries 200-229 are untouched |
| Cronocode.RestoreAfterSave | data/cronocode.js:421-464 | the copy kept by a save restores exactly the saved programme |
| Cronocode.Wheel | data/cronocode.js:842-877 | a wheel step narrows the range only from above 4 degrees, changes it by at most one degree, raises the top only below 50.0 and lowers the bottom only above 0; in the top fifth a forward step of a wide range lowers only the top and a backward step keeps the bottom; below the top fifth a backward step never raises the top |
| Cronocode.WheelBoundaryRow | data/cronocode.js:848-870 | on the row at four fifths of the chart the two directions disagree: forward moves the whole range up (`offsetY>cch*4/5` is false), backward lowers only the minimum (`offsetY<cch*4/5` is false) |
| Cronocode.WheelKeepsZoomOk | data/cronocode.js:842-877 | a wheel step keeps the range on whole degrees, at least 4 wide and non-negative |
| Cronocode.WheelsKeepZoomOk | data/cronocode.js:842-877 | any sequence of wheel steps keeps that invariant |
| Cronocode.InitialZoomOk | data/cronocode.js:575-577 | the starting 12.0 to 22.0 range satisfies the invariant |

## Left out

- ESP-IDF plumbing is not modelled, for it is I/O, not logic:
  - the HTTP handlers and request parsing, the httpd configuration and handler registration;
  - the I2C driver, the chip-ID probe and sensor configuration;
  - the raw and current-data handlers, logging, the display, time sync.
- Concurrency is not modelled. The firmware calls these functions from several tasks without locks.
- Floating point is not modelled. Each float is an integer in its owner's unit, as listed above:
  - the simulator's setpoint and hysteresis;
  - the casts in `history_record`;
  - the page's tenths.
- History.GetStats: the float mean is modelled as an exact rational.
- LogReader.HundredthsRoundTrip: `%.2f` of the float quotient by 100 is modelled as exact decimal text. For 16-bit values the float error is far below half a hundredth, so the printed digits are the same.
- Bme280.CompensateTemperature: the final division by 100.0 as a float is not modelled. The contract states the rounding of the hundredths, not how t_fine follows from the calibration.
- Bme280.CompensatePressure: the contract states only the guard against a zero divisor. The 64-bit formula is written out in the body but not characterised. Its result is Pa times 256 (the source's float division by 25600 is left out).
- Bme280.CompensateHumidity: the result is 1024ths of a percent (the float division by 1024.0 is left out).
- Bme280.Read: the 32- and 64-bit wrap-around of the compensation arithmetic is not modelled; integers are unbounded. A left shift of a negative value is modelled as a multiplication.
- Bme280.ReadHumidityCalib: H4 and H5 are not sign-extended, as in the source. The values stay 12-bit non-negative.
- `bme280_is_ready` is left out; it only reports the initialised flag.
- SensorSim.Update: int32 overflow of the state is not modelled; from any start, the values are clamped after one step.
- Cronocode.ParseInt: the leading whitespace that `parseInt` skips is not modelled. The encoded text never has any at the parsed offsets.
- Cronocode.SendSettings: the programme names written from offset 924 and the DOM updates are left out. The send is modelled as the text.
- Cronocode.Wheel: the mouse's row and the chart's height are integers. Fractional pixel offsets are not modelled.
- The canvas drawing, jQuery handlers, WebSocket transport and alerts of the page are left out.
- WsClients.Cleanup: socket liveness (`is_socket_valid`) is a predicate parameter. The socket options and `close` calls are I/O.
- History.CheckDayChange: the two clock reads are one date parameter.
- History.Load: a partial `fread` of one record is modelled as an overlay of the bytes read on the old slot.
- History.FileNameLayout: requires a 4-digit year and 2-digit month and day. The 32-byte name buffer holds even the widest date (27 characters), but wider fields run together: Date(2024, 111, 1) and Date(20241, 11, 1) both print `log_202411101.bin`. `History.FileNameInjective` therefore needs the widths.
- LogReader.QueryDate: the lookup of the `date` key in the query string is not modelled; the model takes its outcome. Percent-decoding is not modelled either.
- NULL arguments in the C API are left out. The model's values are always present.
- include/log_reader.h says the records are 10 bytes. The code reads 12-byte records, which is what is modelled.

## Findings

| source | as written | input that shows it | evidently intended | confidence | as-written member | corrected member |
|---|---|---|---|---|---|---|
| src/history_manager.cpp:110-159 | `history_init` allocates PSRAM and loads today's file into it without clearing it first. Slots the file does not cover keep whatever the memory held, and load's reconciliation counts them as data. | A file holding only the header, memory that reads as zeros, current minute c: every minute up to c reads as a valid 0.00 degree sample, and the count is c+1. | Clear the buffer before loading, so uncovered minutes are empty. | not executed; medium | History.HistoryInit, History.BootKeepsStaleMemory | History.HistoryInitCleared, History.UnreadSlotsStayEmpty |
| src/wifi.cpp:41-67 | `unregister_ws_client` sets the slot to -1 in place but decrements the count. Registration appends at the count. | Register 5, register 6, unregister 5, register 7: the table's live part is [-1, 7], and client 6 is no longer in the array. | Compact the array on unregister, as the clean-up does. | not executed; high | WsClients.Unregister, WsClients.UnregisterLosesClient | WsClients.UnregisterCompacting, WsClients.CompactingKeepsClient |
| src/wifi.cpp:60-67 | The Wi-Fi disconnect handler (line 230) zeroes the count but leaves the descriptors. A later unregister of an old client still finds it. | Register 5, disconnect, unregister 5: the count is -1, and the next register writes `g_ws_client_fds[-1]`. | Clear the array on disconnect, or never let the count go below zero. | not executed; medium | WsClients.UnregisterAfterDisconnectUnderflows, WsClients.DisconnectReset | WsClients.DisconnectClearing, WsClients.ClearingPreventsUnderflow |
| src/http_server.cpp:22-32 | `mime_from_path` tests `.js` before `.json` by substring. Every path containing `.json` also contains `.js`. | `data.json` gets `application/javascript`; the `application/json` branch is unreachable. | Test `.json` before `.js`. | not executed; high | HttpServer.Mime, HttpServer.JsonUnreachable | HttpServer.MimeJsonFirst, HttpServer.JsonFirstServesJson |
