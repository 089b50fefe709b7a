# Verified models of the ESP8266 SDK algorithms

This project models the algorithms of the repository that sit between its
drivers and its demo code, and proves properties of them with Dafny 4.11. Each
routine that works by changing things step by step is a method or a class with
the fields of the original; it is proved against a specification function, and
the lemmas beside it say what that function means. Hardware, the TCP stack and
the network appear as an environment that may answer in any way its
specification allows: a TCP connection that takes any amount or refuses, a
wired-AND 1-Wire bus, a flash that loses power in the middle of an erase or
write, an I2C slave that drives any levels, interrupts at any moment.

`dafny verify dfyconfig.toml` checks the whole project.

| files | what they model |
|---|---|
| `SsiTags.dfy`, `HttpSender.dfy` | the tag scanner of the HTTP server and its resumable sender |
| `OneWireRoms.dfy`, `OneWireSearch.dfy`, `OneWireMaster.dfy`, `Crc8.dfy` | the 1-Wire ROM search (Maxim Application Note 187) and its CRC (Application Note 27) |
| `PwmTable.dfy`, `PwmDriver.dfy`, `PwmRun.dfy`, `PwmRace.dfy` | the PWM table builder, its routines in place, all interleavings of start routine and interrupt, and exactly when the start loses against the interrupt |
| `JsonTree.dfy`, `JsonSpacing.dfy`, `JsonPrinter.dfy`, `JsonWalker.dfy`, `JsonParser.dfy`, `JsonRoundTrip.dfy` | JSON printer, tree walker, parser (RFC 8259, sections 4 to 7), and how they undo each other |
| `TimerText.dfy`, `TimerSchedule.dfy`, `TimerScheduler.dfy` | the timer text, the next due instant, and runs of the scheduler |
| `ParamStore.dfy` | the parameter store with two data sectors and a flag sector |
| `TailQueue.dfy` | the singly linked tail queue macros |
| `I2cMaster.dfy` | the bit-banging I2C master and a listener on its lines (UM10204, sections 3.1.3 to 3.1.6) |
| `AppImage.dfy` | the firmware image builder and a loader |
| `Arithmetic.dfy`, `ByteList.dfy`, `Decimal.dfy`, `Sequences.dfy` | shared helpers |

Where the code does not do what its documentation or its caller would expect,
the code is modelled as it is, and an if-and-only-if lemma says exactly when it
does:

- A `<` that breaks a lead-in is used up, so the tag in `<<!--#x-->` is not
  recognised (`TagExpandedIff`, `DoubledBracketHidesTag`); the documentation at
  rtos_apps/10HTTP_Server/user/httpd.c:58-66 does not mention this. A tag that
  ends at the end of the file loses its insert (`ExpandedIff`,
  `TagAtEndLosesInsert`, `ATagLosesItsInsert`).
- `http_send_headers` does not report that it sent anything when none of
  its writes was accepted in part (httpd.c:986-988); the body then waits for the
  next callback. `SendHeaders` says exactly when it reports the body may go on, `Send`
  exactly when an attempt reports nothing (`Silent`), and `HeadersGoUnreported` is
  a connection on which all headers go out and nothing is reported.
- A device whose first ROM byte is zero ends every ROM search, so that nothing
  is found at all (`FreshCallIff`, `AllReportedIff`).
- Below 77 Hz the tick count of a PWM period does not fit 16 bits
  (`CycleLengthIff`).
- The PWM starts the timer before it publishes its bank (pwm.c:142-160). In the
  first start, the handler reads outside of a table if and only if as many
  interrupts come before the bank is published as the new table has entries
  (`RunBreaksIff`, `FirstStartRace`). In a later start the new table comes into use
  if and only if fewer came, or the table before has more than one entry
  (`TakesEffectIff`, `APublishedTableIsNotUsed`). A start that begins before the
  table published last was picked up builds in the bank in use, and the next
  interrupt reads outside of it if and only if it has no more entries than the
  handler has used (`UntimelyStartIff`, `ThirdStartIff`).
- The JSON parser does not take back every printed tree: it refuses an array at
  the root, stops at `-`, loses its place after an empty container as the value
  of a pair, and the printer does not escape backslashes (`LooseRoundTripIff`).
- A path finds the first name that begins with the segment, and an empty path
  the first item of the root. It reaches the items it names if and only if no
  earlier name begins with the segment (`ReachedIff`, `APathMissesItsItem`).
- `json_putchar` accepts one character more than the buffer has, and the NUL goes
  behind that: the buffer is overrun if and only if the text is not shorter than
  the buffer (`JsonWsSend`).
- The backslashes that a copy skips are counted in a plain char, which is signed
  for one compiler and unsigned for another: beyond 127 or 255 of them the count
  wraps around, and the copy is right only up to the backslash that does it
  (`CopyValue`).
- A weekly timer whose second is more than a week ahead of the C remainder waits too
  long, which happens before the first Monday (2014-01-05T16:00:00Z), where the
  remainder is negative (`WeeklyWaitIff`, `EarlyWeeklyMissesItsInstant`); a fixed
  timer fires again at once, and a wait of more than 0xFFFFFFF seconds is
  interrupted by a firing without actions (`FiringIsEarliestIff`,
  `NothingSkippedIff`, `RunsWhatIsDueIff`, `FixedFiresAgain`, `LongLoopFiresIdly`).
- The image header always counts three segments, also when an empty section was
  not written. `LoadedIff` says exactly when a loader still gets the sections
  back, and `LoadedAloneIff` what that is for the image alone: none is empty, or
  only the last one is, at address zero, with more than eight bytes of fill.

`ParamStore.dfy` also gives the reason for the erases of the parameter store:
`WithoutEraseIff` says exactly when a save without them would store its record, and
`OneSaveWithoutErase` that only the first of any number of such saves could.

## Model

| member | source | states |
|---|---|---|
| SsiTags.SameNameIff | rtos_apps/10HTTP_Server/user/httpd.c:821 | two names are taken as equal if and only if they are the same byte by byte up to a first NUL in both or their ends |
| SsiTags.InsertByName | rtos_apps/10HTTP_Server/user/httpd.c:820-853 | for names without NUL the insert is the handler's text for the first equal name, and with no equal name the error text around the name |
| SsiTags.InsertIff | rtos_apps/10HTTP_Server/user/httpd.c:804-853 | a text is the insert for a name if and only if it is the handler's text for the first equal table entry, or the error text (cut to the buffer) when there is none |
| SsiTags.EmittedMissesFinalInsert | rtos_apps/10HTTP_Server/user/httpd.c:1198 | what is emitted lacks, compared with expanding every tag, exactly the insert of a tag that ends the file |
| SsiTags.OnlyTagsGetInserts | rtos_apps/10HTTP_Server/user/httpd.c:1204-1344 | anywhere in a file, an insert goes in behind a byte if and only if a documented tag ends there that begins where the scanner is outside of any unfinished tag, and it is the insert of that tag |
| SsiTags.Origin | rtos_apps/10HTTP_Server/user/httpd.c:1204-1313 | wherever the scanner is inside of a tag, the text ends with exactly what it has read of it, begun where it was outside |
| SsiTags.ExpandedIff | rtos_apps/10HTTP_Server/user/httpd.c:1198 | a file is expanded completely if and only if any documented tag that it ends with, begun where the scanner is outside of a tag, has an empty insert |
| SsiTags.TagAtEndLosesInsert | rtos_apps/10HTTP_Server/user/httpd.c:1198 | every tag that is a whole file is put out without its insert |
| SsiTags.ATagLosesItsInsert | rtos_apps/10HTTP_Server/user/httpd.c:1198 | the file `<!--#x-->` is not expanded completely |
| SsiTags.TagFromText | rtos_apps/10HTTP_Server/user/httpd.c:1204-1380 | a lead-in, a name of up to 8 bytes with blanks around it and a lead-out, read from plain text, are kept and followed by the insert |
| SsiTags.TagFromInside | rtos_apps/10HTTP_Server/user/httpd.c:1222-1246 | read from inside any unfinished tag, the same bytes are plain text |
| SsiTags.TagExpandedIff | rtos_apps/10HTTP_Server/user/httpd.c:1204-1380 | anywhere in a file, a tag gets its insert if and only if the scanner was outside of any unfinished tag before it |
| SsiTags.DoubledBracketHidesTag | rtos_apps/10HTTP_Server/user/httpd.c:1236-1244 | one more `<` in front of any tag keeps it from being expanded |
| HttpSender.HttpWrite | rtos_apps/10HTTP_Server/user/httpd.c:607-640 | the halving loop ends; on success a non-empty prefix of the bytes offered was accepted, otherwise nothing was |
| HttpSender.WholeResponse | rtos_apps/10HTTP_Server/user/httpd.c:2147-2205 | the bytes owed at the start are the headers and the file with its tags expanded |
| HttpSender.HttpState.constructor | rtos_apps/10HTTP_Server/user/httpd.c:2147-2205 | a new response owes exactly the whole response, with and without headers, file and tag check |
| HttpSender.HttpState.SendFile | rtos_apps/10HTTP_Server/user/httpd.c:1344-1369 | whatever was accepted, bytes sent and bytes owed still make up the response |
| HttpSender.HttpState.SendHeaders | rtos_apps/10HTTP_Server/user/httpd.c:961-1014 | headers go out in order from the position kept; the body has to wait if and only if a header byte is left or there is no file, and may go on at once if and only if all headers are out and one of their writes was accepted in part |
| HttpSender.HttpState.SendHeader | rtos_apps/10HTTP_Server/user/httpd.c:971-1008 | one turn offers what is left of the current header, moves on when it is out, and notes whether the write was accepted in part |
| HttpSender.HttpState.SendHeaderBytes | rtos_apps/10HTTP_Server/user/httpd.c:979-996 | the header position moves by what was accepted, and not at all after a refusal |
| HttpSender.HttpState.SendDataNonSsi | rtos_apps/10HTTP_Server/user/httpd.c:1108-1139 | an attempt at a file without tags keeps sent and owed bytes together equal to the response, and without a refusal sends something |
| HttpSender.HttpState.ParseText | rtos_apps/10HTTP_Server/user/httpd.c:1204-1220 | the fields step as the automaton does outside of a tag |
| HttpSender.HttpState.ParseLeadIn | rtos_apps/10HTTP_Server/user/httpd.c:1222-1246 | the fields step as the automaton does inside a lead-in, or the lead-in is complete and no byte was used |
| HttpSender.HttpState.ParseName | rtos_apps/10HTTP_Server/user/httpd.c:1248-1299 | the fields step as the automaton does inside a name, including blanks, the empty name and the name that is too long |
| HttpSender.HttpState.ParseLeadOut | rtos_apps/10HTTP_Server/user/httpd.c:1302-1313 | the fields step as the automaton does inside a lead-out |
| HttpSender.HttpState.GetTagInsert | rtos_apps/10HTTP_Server/user/httpd.c:804-853 | the search loop leaves in the buffer, which it fits, the handler's text for the first name that is the same byte by byte, or the error text if none is |
| HttpSender.HttpState.CompleteTag | rtos_apps/10HTTP_Server/user/httpd.c:1315-1344 | the last byte of a tag puts its insert between the tag and the rest of the file |
| HttpSender.HttpState.EndTag | rtos_apps/10HTTP_Server/user/httpd.c:1315-1369 | the end of a tag fetches its insert and sends file bytes before it, or meets a refusal |
| HttpSender.HttpState.Turn | rtos_apps/10HTTP_Server/user/httpd.c:1198-1468 | one turn of the scanning loop keeps the response together and comes nearer to its end, for every state and answer |
| HttpSender.HttpState.SendTag | rtos_apps/10HTTP_Server/user/httpd.c:1387-1466 | the file up to the insert point and then the insert go out in any number of pieces; then scanning goes on |
| HttpSender.HttpState.SendEarlier | rtos_apps/10HTTP_Server/user/httpd.c:1162-1192 | bytes parsed in an earlier attempt go out first |
| HttpSender.HttpState.ScanAndSend | rtos_apps/10HTTP_Server/user/httpd.c:1196-1468 | the scanning loop ends, and without a refusal it has parsed the whole file |
| HttpSender.HttpState.SendDataSsi | rtos_apps/10HTTP_Server/user/httpd.c:1148-1495 | an attempt at a file with tags ends, keeps sent and owed bytes together equal to the response, and without a refusal sends something |
| HttpSender.HttpState.Complete | rtos_apps/10HTTP_Server/user/httpd.c:1023-1041 | the stream is always a prefix of the response, and all of it exactly if nothing is owed |
| HttpSender.HttpState.SendBody | rtos_apps/10HTTP_Server/user/httpd.c:1541-1566 | end of file is declared if and only if no file byte is left |
| HttpSender.HttpState.Send | rtos_apps/10HTTP_Server/user/httpd.c:1505-1567 | one attempt only adds to the stream, which stays a prefix of the response and is all of it at end of file; it reports nothing if and only if it ended the response, or no write of the file was accepted and the headers, if any were left, are now out with a file behind them; without a refusal it comes nearer to the end |
| HttpSender.HeadersGoUnreported | rtos_apps/10HTTP_Server/user/httpd.c:961-1014 | on a connection that takes everything, the first attempt puts out all headers and reports nothing |
| HttpSender.HttpState.Sent | rtos_apps/10HTTP_Server/user/httpd.c:2229-2246 | an acknowledgement resets the retries, and without a refusal some byte or header goes out or the response ends |
| HttpSender.HttpState.Acknowledge | rtos_apps/10HTTP_Server/user/httpd.c:2229-2246 | after n acknowledgements the whole response is out, or n is not more than the bytes owed, the headers and the refusals together: the sender never gets stuck |
| HttpSender.HttpState.Poll | rtos_apps/10HTTP_Server/user/httpd.c:2256-2297 | a poll gives up if and only if it is the fourth without an acknowledgement, otherwise sends more of the response, and flushes the connection if and only if that attempt reported something |
| HttpSender.HttpState.Serve | rtos_apps/10HTTP_Server/user/httpd.c:2229-2297 | over any sequence of callbacks and any back-pressure, the stream is a prefix of the response, and the whole response when end of file was declared |
| OneWireRoms.LessTotal | rtos_apps/extra_lib/el_one_wire.c:278-342 | two ROMs are equal or one comes before the other: the first bit that differs decides, bit 0 of byte 0 first |
| OneWireRoms.LessTransitive | rtos_apps/extra_lib/el_one_wire.c:278-342 | this order is transitive |
| OneWireRoms.WalkFindsDevice | rtos_apps/extra_lib/el_one_wire.c:278-336 | a walk ends at a device that follows the bits already written |
| OneWireRoms.WalkIsLeast | rtos_apps/extra_lib/el_one_wire.c:293-303 | below the last discrepancy a walk reaches the smallest device |
| OneWireRoms.WalkRepeats | rtos_apps/extra_lib/el_one_wire.c:296-298 | above it a walk repeats the last ROM |
| OneWireRoms.LastZeroIsLast | rtos_apps/extra_lib/el_one_wire.c:302-306 | the position kept is the deepest one where 0 was taken although a device has 1 |
| OneWireRoms.WalkIsNext | rtos_apps/extra_lib/el_one_wire.c:278-342 | from a found ROM with its last discrepancy, a walk reaches the next larger ROM on the bus |
| OneWireRoms.LastZeroIff | rtos_apps/extra_lib/el_one_wire.c:344-346 | there is no last discrepancy if and only if the ROM is the largest on the bus |
| OneWireSearch.ListingExists | rtos_apps/extra_lib/el_one_wire.c:229-243 | every finite set of ROMs has an increasing listing |
| OneWireSearch.EnumeratesForever | rtos_apps/extra_lib/el_one_wire.c:204-365 | call n after a reset reports the device number n modulo the number of devices plus one, in increasing order, and none when that is past the last: each device once a round, for ever |
| OneWireSearch.StateAfter | rtos_apps/extra_lib/el_one_wire.c:338-364 | between any two calls the state is fresh, or is the device reported last with its deepest untaken branch, and the flag says whether it is the largest |
| OneWireSearch.FreshCallIff | rtos_apps/extra_lib/el_one_wire.c:352-359 | a call from the start reports a device if and only if there are devices and none has a zero first byte |
| OneWireSearch.NothingForever | rtos_apps/extra_lib/el_one_wire.c:352-359 | with such a device on the bus no call ever reports anything |
| OneWireSearch.AllReportedIff | rtos_apps/extra_lib/el_one_wire.c:246-365 | every device is reported sooner or later if and only if none has a zero first byte |
| OneWireSearch.WalkStaysInFamily | rtos_apps/extra_lib/el_one_wire.c:221-227 | a targeted walk follows the family code as long as a device has it |
| OneWireSearch.TargetFindsFamilyIff | rtos_apps/extra_lib/el_one_wire.c:217-227 | after targeting a family the next call reports a device of it if and only if one is on the bus and the code is not zero |
| OneWireMaster.Bus.ReadBit | rtos_apps/extra_lib/el_one_wire.c:107-121 | the wired-AND of the bits, then of the complements, of the devices still taking part |
| OneWireMaster.Bus.WriteBit | rtos_apps/extra_lib/el_one_wire.c:87-105 | devices with the other bit drop out |
| OneWireMaster.RomBitIs | rtos_apps/extra_lib/el_one_wire.c:293-334 | bit i of a ROM is bit i modulo 8 of byte i / 8 of its buffer, counted from the lowest |
| OneWireMaster.Master.ResetSearch | rtos_apps/extra_lib/el_one_wire.c:204-215 | the state is that of a fresh search |
| OneWireMaster.Master.TargetSearch | rtos_apps/extra_lib/el_one_wire.c:221-227 | the state is that of a search for a family |
| OneWireMaster.Master.Decide | rtos_apps/extra_lib/el_one_wire.c:289-311 | the bit chosen from two bus bits, the last ROM and the last discrepancy is the trie's branch, and the last zero is kept |
| OneWireMaster.Master.TakeBranch | rtos_apps/extra_lib/el_one_wire.c:289-321 | the bit chosen is stored in the ROM buffer and written to the bus, and the other bits stay |
| OneWireMaster.Master.WalkBit | rtos_apps/extra_lib/el_one_wire.c:279-334 | one turn of the bit loop reads, decides, stores and writes a bit, and moves mask and byte number on |
| OneWireMaster.Master.WalkDown | rtos_apps/extra_lib/el_one_wire.c:255-336 | the bit loop over byte number and mask leaves the ROM of the walk and its last zero |
| OneWireMaster.Master.SearchNext | rtos_apps/extra_lib/el_one_wire.c:246-365 | a search call over the bus leaves exactly the state, result and address that the step function of the enumeration gives |
| Crc8.TableIsShift | rtos_apps/extra_lib/el_one_wire.c:371-387 | all 256 table entries are eight shifts by the polynomial x^8+x^5+x^4+1 |
| Crc8.FeedByte | rtos_apps/extra_lib/el_one_wire.c:401 | feeding the bits of a byte one by one is eight shifts of its exclusive or with the register |
| Crc8.TableStep | rtos_apps/extra_lib/el_one_wire.c:401 | one table look-up is feeding eight bits |
| Crc8.OwCrc8 | rtos_apps/extra_lib/el_one_wire.c:396-404 | the table-driven loop computes the bit-serial CRC |
| Crc8.ChecksIff | rtos_apps/extra_lib/el_one_wire.c:389-404 | a message followed by a byte has CRC 0 if and only if the byte is the message's CRC |
| Crc8.CrcOfByte | rtos_apps/extra_lib/el_one_wire.c:396-404 | the register starts at zero, so that the CRC of one byte is its table entry |
| Crc8.OneByteErrorDetected | rtos_apps/extra_lib/el_one_wire.c:389-404 | changing exactly one byte changes the CRC, for messages of any length |
| PwmTable.SortSorts | apps/07switch/driver/pwm.c:58-81 | sorting orders the entries by time and keeps them as a multiset |
| PwmTable.MergeKeepsEffect | apps/07switch/driver/pwm.c:108-120 | merging entries with equal times keeps what is switched when, and leaves strictly increasing times |
| PwmTable.FinishFinishes | apps/07switch/driver/pwm.c:122-140 | differences, cleared last entry and removed zero entry are exactly the finished form of the merged table |
| PwmTable.CycleFollowsSchedule | apps/07switch/driver/pwm.c:122-140 | a cycle of the finished table lasts the full time, and a pin is high at a tick exactly if the schedule has not cleared it by then, whatever the pins were before |
| PwmTable.BuildKeepsPulses | apps/07switch/driver/pwm.c:91-140 | through all steps, a cycle lasts the period and pin i is high for exactly its first ticks |
| PwmTable.BuildDuration | apps/07switch/driver/pwm.c:91-140 | for any ticks at all, a cycle lasts the longest of the times, in closed form |
| PwmTable.BuildEntries | apps/07switch/driver/pwm.c:91-140 | for any ticks at all, the table has as many entries as there are different times other than zero |
| PwmDriver.TicksAreFivefold | apps/07switch/driver/pwm.c:36-41 | the tick formula gives five ticks a microsecond, without 32-bit overflow, for all 16-bit times |
| PwmDriver.PeriodRange | apps/07switch/driver/pwm.c:189-200 | the range of the period for each clamped frequency |
| PwmDriver.TableIsExact | apps/07switch/driver/pwm.c:84-140 | from 77 Hz on, a cycle lasts 5 times the period and channel i is high for exactly its first 5 times floor(period times duty / 255) ticks |
| PwmDriver.CycleLengthIff | apps/07switch/driver/pwm.c:36-41 | a cycle has the length asked for if and only if the frequency is at least 77 Hz |
| PwmDriver.ExtremeDuties | apps/07switch/driver/pwm.c:130-140 | duty 0 is never high and duty 255 never low |
| PwmDriver.PulseIsFloor | apps/07switch/driver/pwm.c:93 | each pulse is five ticks for each whole microsecond of period times duty over 255 |
| PwmDriver.PeriodIs | apps/07switch/driver/pwm.c:189-200 | the period is the whole microseconds of one cycle of the frequency, as far as these fit 16 bits, which they do exactly from 16 Hz on; 0 counts as 1 Hz and more than 500 Hz as 500 |
| PwmDriver.ColdStartIsGentle | apps/07switch/driver/pwm.c:142-153 | what a table puts out between a cold start and the first boundary lasts the period, raises no pin, and lowers a pin with a pulse at its end, or at once if no pulse is shorter |
| PwmDriver.OpenGap | apps/07switch/driver/pwm.c:67-76 | the inner loop shifts exactly the larger entries up by one |
| PwmDriver.ShiftIn | apps/07switch/driver/pwm.c:63-79 | one pass inserts an entry into the sorted front and leaves the rest alone |
| PwmDriver.InsertSort | apps/07switch/driver/pwm.c:58-81 | the sort in place computes the specified sort |
| PwmDriver.Merge | apps/07switch/driver/pwm.c:106-120 | the merge in place computes the specified merge and the entry count |
| PwmDriver.TakeDifferences | apps/07switch/driver/pwm.c:122-125 | the loop from the back leaves the time differences |
| PwmDriver.FinishTable | apps/07switch/driver/pwm.c:127-140 | the last steps in place compute the finished table and its count |
| PwmDriver.BuildTable | apps/07switch/driver/pwm.c:91-140 | the whole build in place computes the specified table |
| PwmRun.Driver.SetDuty | apps/07switch/driver/pwm.c:171-180 | the duty of one channel is set and the others stay |
| PwmRun.Driver.SetFreq | apps/07switch/driver/pwm.c:189-200 | the period is that of the clamped frequency |
| PwmRun.Driver.Start | apps/07switch/driver/pwm.c:84-161 | the start routine stores the table in the spare bank, starts a timer that is down, and flips the banks |
| PwmRun.Driver.InterruptHandler | apps/07switch/driver/pwm.c:253-281 | the handler makes the interrupt step of the machine |
| PwmRun.StepKeepsInv | apps/07switch/driver/pwm.c:84-161 | every step of a timely start and every interrupt keeps the invariant, and the only step that reads outside of a table is an interrupt at the end of a cycle before anything was published |
| PwmRun.RunIsSafe | apps/07switch/driver/pwm.c:253-281 | over every interleaving of timely starts and interrupts without such a read, the bank being written is never one the handler reads, and the index stays inside its table, which has one to go on with once anything was published |
| PwmRun.TickBreaksIff | apps/07switch/driver/pwm.c:257-263 | in every reachable state, an interrupt reads outside of a table if and only if it ends a cycle before anything was published |
| PwmRace.RunBreaksIff | apps/07switch/driver/pwm.c:142-281 | over every interleaving of timely starts and interrupts, a read outside of a table happens if and only if before the first bank is published there are as many interrupts as its table has entries |
| PwmRace.FirstStartRace | apps/07switch/driver/pwm.c:142-160 | for every table with two or more entries there is such a run |
| PwmRace.TakesEffectIff | apps/07switch/driver/pwm.c:142-160 | after any run, a start with n interrupts between kicking the timer and publishing publishes its table, and interrupts bring that into use if and only if n is less than its entries or the table published before does not have just one; otherwise the timer is down with the table before in use |
| PwmRace.PublishesSo | apps/07switch/driver/pwm.c:142-160 | every run that publishes a bank has that shape |
| PwmRace.RunTracks | apps/07switch/driver/pwm.c:84-161 | after any run the next bank is that of the start that published last |
| PwmRace.APublishedTableIsNotUsed | apps/07switch/driver/pwm.c:142-160 | for every table of one entry and every larger one after it there is a run that publishes the second and never uses it |
| PwmRace.UntimelyStartIff | apps/07switch/driver/pwm.c:84-143 | with a table published and not picked up yet, one more start builds in the bank in use, and the next interrupt reads outside of it if and only if it has no more entries than the handler has used |
| PwmRace.ThirdStartIff | apps/07switch/driver/pwm.c:84-143 | for any three tables there are runs that get there: two starts, k interrupts and a third start, after which the next interrupt reads outside if and only if the third table has at most k entries |
| PwmRace.EntriesAre | apps/07switch/driver/pwm.c:84-140 | the entries of the driver's table are the different ends of the pulses that are not empty, with the end of the period |
| PwmRace.TimerNeededIff | apps/07switch/driver/pwm.c:149-153 | there are two or more of these if and only if some pulse is neither empty nor the whole period |
| PwmRun.PwmMakerValid | apps/07switch/driver/pwm.c:84-140 | every table the builder makes from 77 Hz on has an entry, so that the safety of runs holds for the driver's tables |
| PwmRun.NoCycleMixesTables | apps/07switch/driver/pwm.c:257-279 | over every interleaving of timely starts and interrupts, what is put out between two boundaries, each time for as long as the timer was told, is the cycle of one table, and from a cold start to the first boundary likewise |
| PwmRun.EveryCycleIsExact | apps/07switch/driver/pwm.c:84-281 | over every such interleaving, each cycle lasts, by the times loaded into the timer, exactly the period of the settings its table was built from, and gives each channel its pulse; the time from a cold start to the first boundary lasts the period and raises no pin |
| PwmRun.SteadyHoldsLevel | apps/07switch/driver/pwm.c:149-153 | while the timer is down the pins hold the only level of the table put in use last, also while a start builds another one |
| PwmRun.SteadyIsExact | apps/07switch/driver/pwm.c:270-272 | that level is what the settings ask for at every tick |
| JsonPrinter.Context.WriteString | apps/07switch/json/jsontree.c:68-80 | a string goes out between quotes with a backslash before each quote in it |
| JsonPrinter.Context.WriteInt | apps/07switch/json/jsontree.c:83-102 | a number and its sign go out in full through the ten-digit buffer |
| JsonTree.SignIsRead | apps/07switch/json/jsontree.c:83-102 | the text of a number has a minus sign exactly if it is negative, and its digits are read back as its absolute value |
| Decimal.DigitAt | apps/07switch/json/jsontree.c:93-97 | each digit is that of its power of ten, and a number other than zero does not begin with 0 |
| JsonTree.RenderIsText | apps/07switch/json/jsontree.c:150-232 | what is printed of a tree is its text with the brackets, line breaks, commas, colons and quotes at their places, whatever follows it |
| JsonPrinter.FillDigits | apps/07switch/json/jsontree.c:93-97 | the digit loop fills the end of the buffer with the decimal digits, which fit for every 32-bit number |
| JsonPrinter.IntoItem | apps/07switch/json/jsontree.c:188-193 | stepping down to an item leaves its rendering and then the rest of the container pending, with fewer steps to come |
| JsonPrinter.OutOfItem | apps/07switch/json/jsontree.c:225-230 | backing up from a value that is done leaves exactly the rest above it pending |
| JsonPrinter.Context.PrintNext | apps/07switch/json/jsontree.c:150-232 | one step keeps output and pending text together equal to the recursive rendering and comes nearer to the end; when it stops, all is put out |
| JsonPrinter.Context.BackUp | apps/07switch/json/jsontree.c:225-231 | leaving a value goes on with the rest of its container, or ends at the starting level |
| JsonPrinter.Context.FindPath | apps/07switch/user/user_json.c:31-81 | the search goes down as far as the path can be followed, and prints from there |
| JsonPrinter.Context.EnterItem | apps/07switch/user/user_json.c:55-74 | one segment goes to the first item whose name begins with it, if there is one |
| JsonPrinter.FindItem | apps/07switch/user/user_json.c:64-73 | the item found is the first that matches by prefix |
| JsonPrinter.SegmentBySegment | apps/07switch/user/user_json.c:31-81 | a path `a/b` goes on with `b` from the item found for `a`, and ends where it is if there is none |
| JsonPrinter.FoundIff | apps/07switch/user/user_json.c:64-73 | the item found is the first one named exactly by the segment if and only if no earlier name begins with it |
| JsonPrinter.AlongIsRoute | apps/07switch/user/user_json.c:31-81 | the search goes where the numbers of the items it finds lead |
| JsonPrinter.ReachedIff | apps/07switch/user/user_json.c:31-81 | for every tree and every path of existing names, the search goes down to exactly the items named if and only if at no segment an earlier name begins with it |
| JsonPrinter.APathMissesItsItem | apps/07switch/user/user_json.c:64-73 | a tree in which a path leads to an earlier, longer name |
| JsonPrinter.PrintAlong | apps/07switch/user/user_json.c:119-125 | for every tree and path, the text is exactly the recursive rendering of the subtree that the path leads to |
| JsonPrinter.JsonBuffer.PutChar | apps/07switch/user/user_json.c:88-96 | a character is written while the position is not past the size of the buffer |
| JsonPrinter.JsonWsSend | apps/07switch/user/user_json.c:109-131 | what is sent is that rendering, cut off after one character more than the buffer has, and the buffer is overrun if and only if the rendering is not shorter than it |
| JsonWalker.VisitIsPreorder | apps/07switch/json/jsontree.c:235-280 | the pending nodes of a fresh walk are all nodes below the root, each before those below it |
| JsonWalker.FindNext | apps/07switch/json/jsontree.c:235-280 | a call returns the first pending node and leaves the others pending, or returns nothing when there is none, and then always |
| JsonWalker.FindNextOfType | apps/07switch/json/jsontree.c:283-293 | a call returns the next pending node of the type, skipping the others, and nothing when there is none |
| JsonWalker.WholeTree | apps/07switch/json/jsontree.c:123-137 | a context at the root has the whole tree in preorder before it |
| JsonWalker.JsonParse | apps/07switch/user/user_json.c:141-164 | the set hooks are called once for each run of equal callbacks that have one, in preorder |
| JsonWalker.CallsAreRuns | apps/07switch/user/user_json.c:151-153 | there are as many calls as runs of equal callbacks with a hook |
| JsonWalker.CalledIff | apps/07switch/user/user_json.c:148-163 | a hook is called if and only if its callback is in the tree |
| JsonWalker.CalledInOrder | apps/07switch/user/user_json.c:148-163 | the call for a callback comes right behind the calls for those before it |
| JsonParser.Parser.Push | apps/07switch/json/jsonparse.c:41-47 | the character is on top and the value type is cleared, or the stack was full and the character goes outside of it |
| JsonParser.Parser.Pop | apps/07switch/json/jsonparse.c:50-57 | the top is returned and gone; an empty stack stays |
| JsonParser.Parser.SkipWs | apps/07switch/json/jsonparse.c:93-101 | blanks and line breaks are passed, up to the first other character, and nothing else |
| JsonParser.NumberEndIs | apps/07switch/json/jsonparse.c:76-84 | a number goes on over digits and points, up to the first other character |
| JsonParser.ErrorsAre | apps/07switch/json/jsonparse.c:115-189 | for every next character and every stack: which error a parser without one reports, and when it returns zero |
| JsonParser.Parser.Atomic | apps/07switch/json/jsonparse.c:63-90 | start, length and type of a string or number, and the position after it |
| JsonParser.Parser.Next | apps/07switch/json/jsonparse.c:115-189 | the imperative step writes outside of its stack if and only if the step function needs more than ten levels, and otherwise leaves its state and returns its token, in every state, also behind the end of the text, and for every character |
| JsonParser.Parser.CopyValue | apps/07switch/json/jsonparse.c:196-217 | with as many escaping backslashes as a char can count, signed or unsigned, the buffer gets the value without these, as far as it fits, and a NUL; with more, it gets that up to the backslash that overflows the counter, and the place after that is never written |
| JsonParser.Parser.CopyChars | apps/07switch/json/jsonparse.c:206-214 | the loop with its wrapping byte counter leaves such a copy of any characters |
| JsonParser.CountGrows | apps/07switch/json/jsonparse.c:199-211 | a backslash that overflows the counter comes only after as many others as a char can count |
| JsonRoundTrip.ReadIsCopied | apps/07switch/json/jsonparse.c:69-75 | finding the end of a string and copying it is reading it character by character |
| JsonRoundTrip.ReadsBack | apps/07switch/json/jsontree.c:68-80 | a printed string without backslashes is read back whole, up to its closing quote |
| JsonRoundTrip.NeverCatchesUp | apps/07switch/json/jsonparse.c:207-211 | once a backslash was taken for an escape, what is read differs from what was printed |
| JsonRoundTrip.ReadsBackIff | apps/07switch/json/jsontree.c:68-80 | a printed string is read back if and only if there is no backslash in it |
| JsonRoundTrip.OneBackslashPerQuote | apps/07switch/json/jsonparse.c:199-211 | copying a printed string back skips one backslash for each of its quotes |
| JsonRoundTrip.NumberStep | apps/07switch/json/jsonparse.c:180-226 | a printed number is one token, copied back digit by digit and converted back to itself |
| JsonRoundTrip.ReadValue | apps/07switch/json/jsonparse.c:115-189 | a readable value is read back with the stack as before, and any other is not, wherever it stands |
| JsonRoundTrip.LooseRoundTripIff | apps/07switch/json/jsonparse.c:93-226 | for every text of a tree with any blanks and line breaks between its tokens: the parser returns exactly the tokens of the tree with their strings and numbers, without error, within its stack, ending with nothing open, if and only if the root is an object, no string has a backslash, no number is negative, no value of a pair ends with an empty container, and the nesting fits |
| JsonSpacing.PrintedIsLoose | apps/07switch/json/jsontree.c:150-232 | the printed text is such a text |
| JsonRoundTrip.RoundTripIff | apps/07switch/json/jsonparse.c:115-226 | so printing a tree and parsing the text gives its tokens under the same condition |
| JsonRoundTrip.SomeDoNotComeBack | apps/07switch/json/jsonparse.c:130-176 | four concrete trees that are not read back |
| JsonRoundTrip.TakeText | apps/07switch/json/jsonparse.c:196-217 | copying the current value into a buffer of its length gives its text, up to the NUL |
| JsonRoundTrip.TakeToken | apps/07switch/json/jsonparse.c:115-226 | a token comes with the string that `jsonparse_copy_value` copies and the number that `jsonparse_get_value_as_int` converts |
| JsonRoundTrip.ParseAll | esp_iot_sdk/examples/IoT_Demo/user/user_webserver.c:218-230 | a loop until the parser returns zero collects exactly the tokens with their strings and numbers |
| JsonRoundTrip.ParseLoose | apps/07switch/json/jsonparse.c:93-226 | parsing a text with any blanks of a readable tree, with as many quotes in each string as a char can count, gives every name, string and number of the tree |
| JsonRoundTrip.PrintAndParse | apps/07switch/user/user_json.c:109-131 | so does printing it and parsing the text, for a signed and an unsigned char |
| TimerText.IndexOf | apps/07switch/user/user_esp_platform_timer.c:91-100 | the first position of the separator from the start on, or none |
| TimerText.Split | apps/07switch/user/user_esp_platform_timer.c:56-82 | the parts have no separator in them and joined by it give the text again |
| TimerText.OneSplit | apps/07switch/user/user_esp_platform_timer.c:56-82 | there is only one such way to cut a text |
| TimerText.ReadTimers | apps/07switch/user/user_esp_platform_timer.c:138-187 | the timers a text describes are read from it, in order |
| TimerText.ShownIs | apps/07switch/user/user_esp_platform_timer.c:141-170 | a timer is its letter, its number, an equals sign and its action |
| TimerSchedule.LoopWaitIsNext | apps/07switch/user/user_esp_platform_timer.c:162 | a loop timer's wait leads to its first due instant after now |
| TimerSchedule.WeeklyWaitIff | apps/07switch/user/user_esp_platform_timer.c:174-182 | a weekly timer's wait does so if and only if its second is not more than a week ahead of the C remainder |
| TimerSchedule.AlwaysPunctualIff | apps/07switch/user/user_esp_platform_timer.c:174-182 | from the first Monday on that is always so if and only if the second is not more than a week |
| TimerSchedule.EarlyWeeklyMissesItsInstant | apps/07switch/user/user_esp_platform_timer.c:174-182 | at timestamp 0, a timer for second 300000 waits 616800 seconds, past its first due instant |
| TimerSchedule.FixedWaitIff | apps/07switch/user/user_esp_platform_timer.c:149 | a fixed timer's wait does so if and only if its time is still to come |
| TimerSchedule.MinWaitIsLeast | apps/07switch/user/user_esp_platform_timer.c:110-120 | the minimum is the least wait that is not negative, if one is below the limit |
| TimerSchedule.AtOnceIff | apps/07switch/user/user_esp_platform_timer.c:110-149 | the next firing is at once if and only if a fixed timer is set to now |
| TimerSchedule.FirstGapIsNext | apps/07switch/user/user_esp_platform_timer.c:162-182 | the first due instant of a loop or weekly timer is its wait, less the whole weeks that this is too long |
| TimerSchedule.NothingSkippedIff | apps/07switch/user/user_esp_platform_timer.c:110-192 | for any list of timers, a firing that is not at once skips no due instant if and only if no weekly timer that waits too long is due before it |
| TimerSchedule.RunsWhatIsDueIff | apps/07switch/user/user_esp_platform_timer.c:266-287 | such a firing collects exactly the actions due then if and only if no weekly timer that waits too long is due just then, and nothing is due if and only if every wait is beyond the limit |
| TimerSchedule.FiringIsEarliestIff | apps/07switch/user/user_esp_platform_timer.c:129-192 | for any list of timers, the firing is at the earliest due instant after now if and only if no fixed timer is set to now, some wait is within the limit, and no weekly timer that waits too long is due before |
| TimerSchedule.FixedFiresAgain | apps/07switch/user/user_esp_platform_timer.c:149 | a fixed timer at now fires again at once beside a loop of a minute |
| TimerSchedule.LongLoopFiresIdly | apps/07switch/user/user_esp_platform_timer.c:113 | a loop twice as long as the limit is interrupted by a firing at which nothing is due |
| TimerSchedule.RecurringFiring | apps/07switch/user/user_esp_platform_timer.c:266-287 | with loop and weekly timers a firing is after now, skips no due instant and collects exactly the actions due then |
| TimerSchedule.KnownLeave | apps/07switch/user/user_esp_platform_timer.c:213-226 | known actions leave the plug as the last `on_switch` or `off_switch` says, or as it was if there is none, changed to the other state if the number of `on_off_switch` behind that is odd |
| TimerSchedule.RunActionsIs | apps/07switch/user/user_esp_platform_timer.c:213-230 | a list stops at the first action that begins with 0, after which the scheduler goes on, or that is not known, after which it does not, and the plug is as the actions before leave it |
| TimerSchedule.DueInOrder | apps/07switch/user/user_esp_platform_timer.c:273-281 | the action of a due timer comes right behind those of the due timers before it in the list |
| TimerSchedule.NoDueInstantIsSkipped | apps/07switch/user/user_esp_platform_timer.c:129-287 | over any number of firings, the due instants are exactly the times of the firings that are not idle |
| TimerScheduler.Scheduler.FindMinTime | apps/07switch/user/user_esp_platform_timer.c:110-120 | the loop computes the minimum |
| TimerScheduler.Scheduler.OverflowCheck | apps/07switch/user/user_esp_platform_timer.c:240-257 | elapsed, armed and remaining time add up to the wait, with hourly slices and then the rest |
| TimerScheduler.Scheduler.TimerAction | apps/07switch/user/user_esp_platform_timer.c:267-287 | the record holds the actions of the timers that wait the shortest |
| TimerScheduler.Scheduler.FirstStart | apps/07switch/user/user_esp_platform_timer.c:129-192 | the clock moves to the end of the last wait, and the next wait is under way |
| TimerScheduler.Scheduler.DeviceAction | apps/07switch/user/user_esp_platform_timer.c:202-230 | the actions are run in order; after known ones the scheduler goes on, and the plug is as the last that sets it says, or else as before, changed once for each `on_off_switch` behind that |
| TimerScheduler.Scheduler.WaitAndFire | apps/07switch/user/user_esp_platform_timer.c:240-257 | the slices armed between two firings last together exactly the wait |
| TimerScheduler.Fire | apps/07switch/user/user_esp_platform_timer.c:202-287 | a firing happens after waiting exactly the milliseconds up to the next firing time, and runs exactly the actions due then |
| TimerScheduler.Run | apps/07switch/user/user_esp_platform_timer.c:129-287 | the log of n firings has the first n firing times, each with the actions due then and the wait from the one before, the waits together are exactly the time that has passed, and the plug is as all these actions, one after the other, leave it |
| TimerScheduler.WaitsAddUp | apps/07switch/user/user_esp_platform_timer.c:240-257 | the waits of such a log add up to the time from its start to its end |
| ParamStore.EraseThenProgram | apps/07switch/user/user_esp_platform.c:131-133 | writing to an erased sector stores the data |
| ParamStore.LoadParam | apps/07switch/user/user_esp_platform.c:99-113 | a load returns the record of the first sector if the flag is 0, and of the second otherwise |
| ParamStore.Replace | apps/07switch/user/user_esp_platform.c:131-137 | erase and write change one sector only, and store the data if both finish |
| ParamStore.SaveParam | apps/07switch/user/user_esp_platform.c:123-147 | a save finishes if power holds; wherever power fails, a load returns the new record or the one before, whole; after a finished save, the new one |
| ParamStore.SaveAll | apps/07switch/user/user_esp_platform.c:99-147 | over any sequence of saves and power losses, each takes effect entirely or not at all, and all of them if power holds, and a load returns the last that did |
| TailQueue.ChainedAppend | esp_iot_sdk/include/queue.h:104-110 | two chains are one if and only if the first ends at the start of the second |
| TailQueue.LinkAt | esp_iot_sdk/include/queue.h:156 | the link of each element is the next one, and of the last one the end |
| TailQueue.Relink | esp_iot_sdk/include/queue.h:135-136 | assigning a link changes only where that chain ends |
| TailQueue.Head.Init | esp_iot_sdk/include/queue.h:127-130 | the queue is empty and the last link is the head's own |
| TailQueue.Head.Empty | esp_iot_sdk/include/queue.h:112 | the first link is NULL if and only if there is no element |
| TailQueue.Head.Last | esp_iot_sdk/include/queue.h:150-154 | the element of the last link, if there is one |
| TailQueue.Head.InsertHead | esp_iot_sdk/include/queue.h:138-142 | the element is in front |
| TailQueue.Head.InsertTail | esp_iot_sdk/include/queue.h:144-148 | the element is at the end |
| TailQueue.Head.InsertAfter | esp_iot_sdk/include/queue.h:132-136 | the element is behind the one named |
| TailQueue.Head.RemoveHead | esp_iot_sdk/include/queue.h:172-176 | the first element is gone |
| TailQueue.Head.RemoveAfter | esp_iot_sdk/include/queue.h:178-182 | the element behind the one named is gone |
| TailQueue.Head.Remove | esp_iot_sdk/include/queue.h:158-170 | an arbitrary element is gone and the order of the others kept |
| TailQueue.WithoutAt | esp_iot_sdk/include/queue.h:158-170 | what remains is what was before it and what was behind it |
| TailQueue.Head.Concat | esp_iot_sdk/include/queue.h:104-110 | the other queue's elements are at the end, and that queue is empty |
| TailQueue.Head.Swap | esp_iot_sdk/include/queue.h:184-195 | both queues have each other's elements, also when one is empty or both are the same |
| TailQueue.Head.InsertChainHead | esp_iot_sdk/include/queue.h:197-202 | a linked chain is in front |
| TailQueue.Head.Foreach | esp_iot_sdk/include/queue.h:116-119 | the loop visits the elements in order, each once |
| TailQueue.OneContents | esp_iot_sdk/include/queue.h:87-91 | the links determine the elements |
| TailQueue.Acyclic | esp_iot_sdk/include/queue.h:116-119 | from any element the links reach the end after exactly the remaining elements |
| I2cMaster.Master.SetDc | apps/07switch/driver/i2c_master.c:29-45 | the listener observes exactly the new levels, with the slave's level pulled in |
| I2cMaster.EventsAre | apps/07switch/driver/i2c_master.c:131-158 | the listener takes SDA falling while SCL is high as a START, and rising as a STOP |
| I2cMaster.PulseIs | apps/07switch/driver/i2c_master.c:167-277 | the listener takes a clock pulse as a bit, and the ninth as the acknowledgement of the byte before it |
| I2cMaster.Master.Start | apps/07switch/driver/i2c_master.c:131-139 | the listener hears one START, also between transfers |
| I2cMaster.Master.Stop | apps/07switch/driver/i2c_master.c:148-158 | the listener hears one STOP and the bus is idle |
| I2cMaster.Master.SetAck | apps/07switch/driver/i2c_master.c:167-179 | the ninth bit of a frame is the level given |
| I2cMaster.Master.GetAck | apps/07switch/driver/i2c_master.c:188-204 | the ninth bit is the slave's level, which is returned |
| I2cMaster.Master.ReadByte | apps/07switch/driver/i2c_master.c:213-244 | the value is the slave's eight levels, most significant first, and the listener has the same bits |
| I2cMaster.Master.WriteByte | apps/07switch/driver/i2c_master.c:253-277 | the listener has the eight bits of the byte, most significant first, and no START or STOP in between |
| I2cMaster.ReadsAs | apps/07switch/driver/i2c_master.c:222-238 | if the slave drives the bits of a byte, the levels read as that byte |
| I2cMaster.OrAdds | apps/07switch/driver/i2c_master.c:236-237 | the bitwise or with a bit that is clear, as are all below it, is the sum |
| I2cMaster.ShiftIn | apps/07switch/driver/i2c_master.c:236-237 | after the bitwise or with the shifted level, the value is the levels so far and this one, most significant first |
| I2cMaster.Master.Perform | apps/07switch/driver/i2c_master.c:130-277 | each operation of a transaction has exactly its effect on the listener and its result for the master |
| I2cMaster.Master.Transfer | apps/07switch/driver/i2c_master.c:130-277 | over any transaction the listener recovers exactly the bytes and acknowledgements in order, the master gets what the slave sent, and no step changes both lines |
| AppImage.LeRoundTrip | esp_iot_sdk/tools/gen_appbin.py:74 | little-endian numbers are read back |
| AppImage.LeAt | esp_iot_sdk/tools/gen_appbin.py:74 | byte i of a written number is its i-th byte from the lowest |
| AppImage.RoundedUp | esp_iot_sdk/tools/gen_appbin.py:70-73 | padding reaches the next multiple of four with fewer than four bytes |
| AppImage.Builder.AddToSum | esp_iot_sdk/tools/gen_appbin.py:79-81 | after the loop a bit of the checksum is set if and only if it is set in an odd number of the checksum before and the bytes |
| AppImage.XorBit | esp_iot_sdk/tools/gen_appbin.py:81 | a bit of the exclusive or is set if and only if it is set in exactly one of the two |
| AppImage.Builder.CombineBin | esp_iot_sdk/tools/gen_appbin.py:56-94 | a section is appended with address, padded length and padding, or not at all when empty; the checksum takes in its bytes only |
| AppImage.Builder.WriteImage | esp_iot_sdk/tools/gen_appbin.py:203-224 | header, three sections, fill and checksum are appended |
| AppImage.SegmentBack | esp_iot_sdk/tools/gen_appbin.py:74-91 | a loader finds the address and the padded bytes of a section and what follows it |
| AppImage.SegmentIs | esp_iot_sdk/tools/gen_appbin.py:69-91 | a section is written as its address and padded length, lowest byte first, its bytes and zeros |
| AppImage.ImageBack | esp_iot_sdk/tools/gen_appbin.py:194-224 | with three non-empty sections a loader gets back flags, entry, addresses and bytes with their padding, and the checksum is right, wherever in a file the image is |
| AppImage.ImageAligned | esp_iot_sdk/tools/gen_appbin.py:217-224 | the image ends at the end of a line of 16 bytes, and a bit of its last byte is set if and only if it is set in an odd number of 0xEF and the section bytes |
| AppImage.ImageStarts | esp_iot_sdk/tools/gen_appbin.py:203-215 | the image begins with 0xE9, 3, the flags and the entry address, and goes on with the three sections in order |
| AppImage.EmptySectionMisleads | esp_iot_sdk/tools/gen_appbin.py:69-91 | with an empty section and another one behind it, a loader that trusts the header does not get the sections back |
| AppImage.LoadedIff | esp_iot_sdk/tools/gen_appbin.py:69-224 | for all sections, empty or not, and all bytes behind the image: a loader gets the sections back if and only if there is text, no empty section comes before another one, and the fill, the checksum and what follows begin with the missing headers and a second fill and checksum |
| AppImage.LoadedAloneIff | esp_iot_sdk/tools/gen_appbin.py:69-224 | if the fifteenth byte behind the image is missing or not zero, that is so if and only if no section is empty, or only the last one is, has address zero, and the fill is longer than eight bytes |
| AppImage.EmptyIff | esp_iot_sdk/tools/gen_appbin.py:74 | a loader finds an empty section exactly where its address and a zero length are spelled |
| AppImage.GenAppbin | esp_iot_sdk/tools/gen_appbin.py:194-239 | the whole file for each boot mode |
| AppImage.BootTwoBack | esp_iot_sdk/tools/gen_appbin.py:194-201 | in boot mode 2 a loader finds in front of the image 0xEA, 4, the flags, the entry address, and as one segment at address 0 the code with its padding |
| AppImage.IromOffsetIff | esp_iot_sdk/tools/gen_appbin.py:226-236 | in boot mode 1 the file has exactly the code from byte 65536 on if and only if the image is not longer than that, and 0xFF in between |

## Left out

- Http: the configuration is fixed to server-side includes with the tag kept in the output, no multipart inserts, no dynamic file read, no HTTP/0.9; request parsing, header selection, closing and freeing of connections are not modelled.
- HttpSender.TcpPcb: the maximum segment size is at least one byte.
- HttpSender.HttpState.constructor: memory for the tag state is taken to be available; when it is not, the source sends the file without looking for tags.
- `http_kill_oldest_connection`: it walks to the last list entry, which is the newest connection; a list walk adds nothing here.
- OneWireMaster.Master.SearchNext: the set of devices stays the same during a call and a shorted bus is not modelled; `last_family_discrepancy` is written but never read in the source and is omitted. Bit timing and the other bus commands are not modelled.
- PwmRun: that the starts are timely is an assumption of the theorems about runs; what it rules out is `UntimelyStartIff`. After a read outside of a table nothing more is said. Pin masks are sets of pins.
- PwmDriver.BuildTable: fewer than 128 channels, because the sort's index is a signed byte; the source has 3.
- Json: a callback's output is a fixed sequence of pieces, so hooks and outputs that change the tree are not modelled.
- JsonPrinter.PrintAlong: trees of at most 10 levels, as for JsonPrinter.JsonWsSend.
- JsonPrinter.JsonWsSend: the tree has at most 10 levels, as the source's stack; deeper trees overrun it (the source notes this there). Numbers are above -2^31, because the source negates them.
- JsonParser.Parser.Next: nothing is said about a parser that has written outside of its stack. The memory behind the NUL at the end of the text is taken to hold another NUL.
- JsonParser.Parser.CopyValue: after the counter has wrapped around, only the text before that and the place behind it are described, not the rest of the buffer, nor whether anything outside of it is written.
- JsonParser.Parser.GetValueAsInt: the conversion is on unbounded numbers; only digits can be there.
- JsonWalker.FindNext: the context starts at the root, as `jsontree_setup` leaves it.
- TimerText.ReadTimers: the record buffers are large enough, each timer has exactly one `=`, and numbers are in decimal digits; the search for the `timers` field in the server's message is not modelled.
- TimerScheduler.Run: loop and weekly timers with known actions, a second of the week for weekly ones, and times from the first Monday on and below 2^31. The record handed from callback to callback is taken to survive (the source keeps it on a stack frame that is gone). Fixed timers fire again at once, as `FiringIsEarliestIff` says, and are not part of the theorem about runs.
- ParamStore.SaveParam: an erase or write that power cuts off leaves anything in its own sector and nothing elsewhere; the flash driver's return codes are ignored by the source and here.
- TailQueue: the debugging hooks of the macros, which are empty by default.
- I2cMaster: delays, pin set-up and the 28 clock pulses of the initialisation; the slave does not stretch the clock.
- AppImage: reading the symbol file, and the shell commands around it.
- UART, ADC, SPI, GPIO and pin multiplexing, Wi-Fi and cloud client code, keys, and the other demos: direct hardware access or plumbing without an invariant of its own.
