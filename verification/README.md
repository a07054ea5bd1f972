# A Dafny model of the row-log reader and the store dispatcher

The repository follows a MySQL row binary log, decodes the row images in it and hands them to stores over
sockets. This project models the parts of it that compute: the byte codecs of column values, the cursor over row
images, the resumable log reader, the registry of stores and the dispatch of messages, the bounded queues between
threads, MD5, base64 and URL encoding. For each it states what the part is for and proves it for all inputs, all
runs or all reachable states. Where the code does not do what one would expect, the exact condition under which it
does is proved, with a concrete input or run on the other side.

`dafny verify dfyconfig.toml` checks everything.

## How the project is laid out

Every part has a module that follows the code (its state, its branches, its loops, with the functions that specify
them) and, where the results need several steps, a module of theorems.

| files | part |
|---|---|
| Arith, Bits, ByteStore, Options | division, powers, byte strings, bitwise operators, the load and store macros |
| PackedDecimal, DecimalText, DecimalEncoding, DecimalValue, DecimalTheorems, DecimalLimits | packed decimals: decoder, printer, meaning, results, what is refused and cut |
| Temporal, TemporalTheorems, Calendar | TIME, DATETIME and TIMESTAMP codecs, day numbers, dates written as numbers |
| Bitmap, FieldLength, FieldWidth, TableDefinition, RowCursor, TableSchema | the column bitmap, length-encoded integers, the two width computations, metadata, row images and events, rows by the schema of their table |
| LogTail, LogTailTheorems, LogRows | the log reader, its resumption, what it hands on |
| StoreCodes, StoreRegistry, RegistryTheorems, HeartbeatTheorems, DispatchTheorems | store lists, the registry, heartbeats and dispatch |
| MessageQueues | the two queues under every interleaving |
| Md5Words, Md5Sines, Md5 | the MD5 block in 64-bit words, its constants, streaming and padding |
| Base64, UrlCodec | the text codecs |

Code that changes state is imperative here too: a class with the program's fields, a method per operation, and a
specification function that the method's contract equates with the new state. The lemmas are about those functions.
C integers are unbounded integers here; a cast, a wrap-around or a truncating division that matters is written out.

## What was found

- Packed decimals: the check of the leading group compares with 10^(digits + 1), so an encoding whose leading group
  has one digit too many is accepted and printed without that digit. `DecimalTheorems.DecodeThenPrint` shows that an
  accepted encoding prints as its value if and only if all its groups are in range; `ExtraDigitLost` is an input.
- Binary TIME: with one or two digits of storage a fraction survives if and only if it is a multiple of 10^4
  microseconds, with three or four of 10^2 (`TemporalTheorems.TimeBytesRoundTrip`). A negative DATETIME with
  microseconds never survives (`DatetimeRoundTrip`).
- `number_to_datetime` moves years below 100 to 1970..2069, so a datetime reads back as itself if and only if its
  year is at least 100 (`Calendar.DatetimeReadsBack`).
- Column widths: `FieldWidth.WidthsAgree` lists exactly the columns for which the row cursor and `calc_field_size`
  agree on every row content. They never agree for VAR_STRING or for a DATE that was not turned into NEWDATE, and
  agree for JSON only with metadata 2 and for GEOMETRY only with 0; servers write 4 for both.
- Updates: an event names the columns of its after images in a bitmap of its own, but both images are cut with the
  columns of the before image. For columns on which the two widths agree, every update event is cut as written if and
  only if the after image has as many columns as the before image and their lengths are found in the same way
  (`RowCursor.EventRoundTripExactly`); `AfterColumnsIgnored` is an event on which the cursor runs past the rows.
- Log tailing: repeated polls of a growing file give what one reading of the final file gives if and only if no
  query, table map or rows event follows an event of unknown type (`LogTailTheorems.TailingExactly`): an unknown
  event makes the reader skip to the end of the snapshot it is in.
- Dispatch: a store code that goes on after a NUL reaches a connected store but not a disconnected one
  (`RegistryTheorems.DispatchHandlesOnce`); `NulHidesStore` is a run to such a miss for every store. A client that
  registers under a second name makes its first name unknown (`RegistrationKnows`).
- Queues: the signal for an item of one queue can wake the consumer of the other, and both consumers then sleep
  beside a queued item (`MessageQueues.ConsumersSleepBesideItem`). No run does that if and only if there are at most
  two threads or consumers of at most one queue (`StrandsExactly`); then every item beside a sleeping consumer has
  a thread that will signal for one or take one (`SleepersAreOwed`). Likewise a producer that is woken signals for
  consumers only, so a second producer can sleep on beside room in its queue (`ProducerSleepsBesideRoom`); no run
  does that if and only if there are at most two threads or at most one of them produces (`ForgetsExactly`).
- MD5: with `unsigned long` of 64 bits the digest steps are right in every word width, but the bit count of an
  update of 2^29 bytes or more is one unit of 2^32 too large unless its low half carries (`Md5.HighCount`), so
  `GenerateMD5` processes the padded message of RFC 1321 exactly below 2^29 bytes (`Md5.PaddedExactlyWhenShort`).

## Model

| member | source | states |
|---|---|---|
| ByteStore.SintIsSignedWord | binlog/include/myisampack.h:27-43 | each signed load of 1 to 4 bytes is the sign-extended big-endian number of the bytes |
| ByteStore.Store2ThenLoad | binlog/include/myisampack.h:45-89 | loading two stored bytes gives the value modulo 2^16, whatever its sign |
| ByteStore.Store3ThenLoad | binlog/include/myisampack.h:47-95 | the same for three bytes |
| ByteStore.Store5ThenLoad | binlog/include/myisampack.h:54-107 | the same for five bytes |
| ByteStore.Store6ThenLoad | binlog/include/myisampack.h:59-115 | the same for six bytes |
| PackedDecimal.FullLayout | binlog/src/decimal.cpp:231-244 | the groups of a column cover exactly the bytes that the size function counts |
| PackedDecimal.FixLayout | binlog/src/decimal.cpp:395-424 | which groups are left when the decimal has fewer words, and the error for it |
| PackedDecimal.LoadLead | binlog/src/decimal.cpp:430-450 | the short leading word is loaded, checked and dropped when it is zero |
| PackedDecimal.LoadIntegers | binlog/src/decimal.cpp:430-461 | the integer words end up without leading zero words, with the digits counted down, or the encoding is refused |
| PackedDecimal.LoadFractions | binlog/src/decimal.cpp:463-487 | the fraction words, the last one scaled in 32-bit arithmetic, follow the integer words |
| PackedDecimal.NormalizeZero | binlog/src/decimal.cpp:488-490 | a number without digits becomes the proper zero |
| PackedDecimal.Bin2Decimal | binlog/src/decimal.cpp:394-495 | error code and decimal are those of the decoding function, for every byte string, precision, scale and buffer size |
| DecimalText.CountLeadingZeroes | binlog/src/decimal.cpp:246-262 | how many digits of a word are leading zeroes, by the powers of ten the word lies between |
| DecimalText.RemoveLeadingZeroes | binlog/src/decimal.cpp:265-284 | skips exactly the zero words and counts the digits that remain |
| DecimalText.FitDigits | binlog/src/decimal.cpp:305-341 | which digits are cut when the text does not fit, and the error for it |
| DecimalText.WriteFraction | binlog/src/decimal.cpp:347-363 | writes the fraction digits in order, from the top digit of each word, and nothing else |
| DecimalText.WriteInteger | binlog/src/decimal.cpp:373-386 | writes the integer digits right to left, from the low digit of each word, and nothing else |
| DecimalText.WriteText | binlog/src/decimal.cpp:344-388 | the sign, the integer digits and the fraction behind its point are the text; bytes behind it stay |
| DecimalText.Decimal2String | binlog/src/decimal.cpp:286-391 | text and error code are those of the printing function, and the text ends in a NUL |
| DecimalEncoding.MagnitudeOrder | binlog/src/decimal.cpp:430-487 | a smaller number in its groups is a smaller number in its bytes, when the groups are in range |
| DecimalEncoding.EncodingOrder | binlog/src/decimal.cpp:394-490 | byte order of two well-formed encodings is the order of their values, strict except that -0 comes before +0; equal bytes are equal signed values |
| DecimalTheorems.PrintedOrder | binlog/src/decimal.cpp:265-495 | byte order of two well-formed encodings is the order of the numerals decoded and printed for them, with the same exception |
| DecimalEncoding.EncodeDenotes | binlog/include/decimal.h:45 | the encoder that the header declares, written from the format: every number of the precision has a well-formed encoding that denotes it |
| DecimalEncoding.EncodeComplete | binlog/include/decimal.h:45 | every well-formed encoding is the encoder's output for its sign and value |
| DecimalTheorems.WordIsGroup | binlog/src/decimal.cpp:399-446 | flipping the sign bit, loading with sign and complementing with the mask give the group of the absolute value, in every word |
| DecimalTheorems.NoCutting | binlog/src/decimal.cpp:23-42 | with precision up to 65 and scale up to 30 nine words always suffice: nothing is cut and no error reported |
| DecimalTheorems.WellFormedEnds | binlog/src/decimal.cpp:443-487 | in an accepted encoding only the two short groups can be out of range, and it is well-formed exactly when they are in range |
| DecimalTheorems.WellFormedIsAccepted | binlog/src/decimal.cpp:430-487 | no well-formed encoding is refused |
| DecimalTheorems.TextValue | binlog/src/decimal.cpp:344-388 | the printed numeral has the value of the words, cut to the digits that are printed |
| DecimalTheorems.AcceptedPrints | binlog/src/decimal.cpp:265-391 | printing an accepted encoding never cuts, gives exactly scale fraction digits, and gives the encoded value if and only if the encoding is well-formed |
| DecimalTheorems.DecodeThenPrint | binlog/src/decimal.cpp:265-495 | for every byte string of a column: it is refused or decoded without cutting, and it is well-formed if and only if it is accepted and prints as its value, the numeral then being canonical |
| DecimalTheorems.PrintColumn | binlog/src/LogEvent.cpp:486-500 | the column reader, with nine words and 83 characters, prints that text |
| DecimalTheorems.ExtraDigitLost | binlog/src/decimal.cpp:444-445 | the byte 0x8C as DECIMAL(1,0) is decoded without error to the word 12 with one integer digit, and printed as 2 |
| DecimalTheorems.ShortColumn | binlog/src/decimal.cpp:430-450 | a column of one short group denotes the number its bytes spell, and is well-formed exactly when that has no more digits than the column |
| DecimalLimits.RefusedExactly | binlog/src/decimal.cpp:394-490 | for every byte string of a column the error code: refused exactly when a group, read as a signed word, is negative or has more than nine digits, a short first group more than one digit too many, or a short last one leaves 10^9 when shifted up in 32 bits |
| DecimalLimits.FitsInWords | binlog/src/decimal.cpp:23-42 | for every number of words which groups are left and which error is reported: whole fraction groups go first, then the high integer groups |
| DecimalLimits.LongestThatFits | binlog/src/decimal.cpp:305-341 | a text that does not fit loses fraction digits first and no more digits than it must, with the error code by what it lost |
| Temporal.TimeFromPacked | binlog/src/my_time.cpp:1037-1051 | all the fields of the structure after unpacking a TIME |
| Temporal.TimeBytes | binlog/src/binary_log_funcs.cpp:6-8 | a stored TIME has as many bytes as my_time_binary_length says |
| Temporal.TimePackedToBinary | binlog/src/my_time.cpp:1057-1088 | the bytes written for a packed TIME, and nothing else in the buffer |
| Temporal.DatetimeFromPacked | binlog/src/my_time.cpp:1161-1184 | all the fields of the structure after unpacking a DATETIME |
| Temporal.DatetimeBytes | binlog/src/binary_log_funcs.cpp:10-12 | a stored DATETIME has as many bytes as my_datetime_binary_length says |
| Temporal.DatetimePackedToBinary | binlog/src/my_time.cpp:1221-1246 | the bytes written for a packed DATETIME, and nothing else in the buffer |
| TemporalTheorems.TimeToPackedValue | binlog/src/my_time.cpp:1028-1034 | packing a TIME in range by shifts and ors is positional: hours, minutes and seconds over microseconds, with the sign |
| TemporalTheorems.TimeBytesReadBack | binlog/src/my_time.cpp:1057-1136 | what is read back from the bytes of any packed TIME, with the borrow of negative fractions |
| TemporalTheorems.TimeBytesRoundTrip | binlog/src/my_time.cpp:1057-1136 | bytes give a packed TIME back if and only if its fraction is a multiple of the storage unit |
| TemporalTheorems.TimeRoundTrip | binlog/src/my_time.cpp:1028-1136 | structure to packed to bytes and back is the identity if and only if the structure is canonical (not negative zero, days folded into hours) and its microseconds fit |
| TemporalTheorems.TimeBytesOrder | binlog/src/my_time.cpp:1057-1088 | byte order of stored TIMEs is the order of the durations, negatives included |
| TemporalTheorems.TimeBytesWeighed | binlog/src/my_time.cpp:1028-1088 | the bytes of a stored TIME as one big-endian number of its fields, by literal weights, negatives included |
| TemporalTheorems.DatetimeToPackedValue | binlog/src/my_time.cpp:1138-1145 | packing a DATETIME in range is positional |
| TemporalTheorems.DatetimeRoundTrip | binlog/src/my_time.cpp:1138-1246 | structure to packed to bytes and back is the identity if and only if the microseconds fit and a negative value is nonzero and has none |
| TemporalTheorems.DatetimePackingOrder | binlog/src/my_time.cpp:1138-1145 | packing is strictly monotone in year, month, day, hour, minute, second, microsecond |
| TemporalTheorems.DatetimeBytesOrder | binlog/src/my_time.cpp:1221-1246 | byte order of stored DATETIMEs is calendar order |
| TemporalTheorems.DatetimeBytesWeighed | binlog/src/my_time.cpp:1138-1246 | the bytes of a stored DATETIME as one big-endian number of its fields, by literal weights |
| Temporal.TimestampToBinary | binlog/src/my_time.cpp:1274-1299 | the bytes written for a TIMESTAMP, and nothing else in the buffer |
| TemporalTheorems.TimestampRoundTrip | binlog/src/my_time.cpp:1249-1299 | seconds and microseconds are read back if and only if the microseconds fit and the seconds are any of a long of 32 bits or, where long has 64 bits, have 32 unsigned bits |
| TemporalTheorems.TimestampBytesWeighed | binlog/src/my_time.cpp:1274-1299 | the bytes of a stored TIMESTAMP as one big-endian number of its seconds and microseconds |
| Calendar.DaynrIsRank | binlog/src/my_time.cpp:677-696 | the day number of every valid date is the number of days up to it, counted year by year and month by month |
| Calendar.NextDayIsOneMore | binlog/src/my_time.cpp:677-696 | the next day of the calendar has the next number |
| Calendar.DaynrOrder | binlog/src/my_time.cpp:677-696 | day numbers are ordered as dates are and differ for different dates |
| Calendar.EveryDayHasItsNumber | binlog/src/my_time.cpp:677-696 | every positive number is the day number of a valid date |
| Calendar.EpochNumber | binlog/src/my_time.cpp:22 | days_at_timestart is the number of 1 January 1970 |
| Calendar.MonthZero | binlog/src/my_time.cpp:677-696 | the zero date has number zero, and month zero counts as December of the year before |
| Calendar.FillAndCheck | binlog/src/my_time.cpp:934-955 | the digits go to the fields, and the result and warning follow from the checks |
| Calendar.ReadNumber | binlog/src/my_time.cpp:880-955 | result, structure and warning of number_to_datetime are those of the reading function, on every number and flags |
| Calendar.NumberIsNormal | binlog/src/my_time.cpp:880-967 | a result other than -1 is the number of the fields, passes the range and date checks, and is read again as itself with the same fields |
| Calendar.DatetimeReadsBack | binlog/src/my_time.cpp:880-967 | the number of a valid datetime reads back with years below 100 moved to 1970..2069: the identity if and only if the year is at least 100 |
| Calendar.TwoDigitDate | binlog/src/my_time.cpp:898-911 | YYMMDD is read as the day of 1970..2069 with those digits, under every flag |
| Calendar.EightDigitDate | binlog/src/my_time.cpp:914-922 | YYYYMMDD of a valid date is read as that day at midnight, under every flag from year 1000 on, and from year 100 on with the flag for incomplete dates |
| Calendar.AcceptedMeans | binlog/src/my_time.cpp:48-96 | which fields pass the range and date checks under which flags: valid dates, days beyond the month under one flag, zero parts under two |
| Calendar.WhyRefused | binlog/src/my_time.cpp:48-68 | the warning of the date check, by valid dates and the bits of the flags |
| Calendar.AsItStands | binlog/src/my_time.cpp:925-955 | a number behind the short forms stands for itself or is refused |
| Calendar.RefusedAsTruncated | binlog/src/my_time.cpp:934-955 | every refused number but zero and those that are too long is reported as truncated |
| Calendar.ZeroNumber | binlog/src/my_time.cpp:888-898 | zero is the zero date, refused with its own warning under one flag |
| Calendar.NumbersBetween | binlog/src/my_time.cpp:880-930 | the numbers between the forms and beyond fourteen digits are refused, with their warning |
| Bitmap.TableCountsWord | binlog/include/my_bit.h:27-85 | the table of 256 entries, looked up four times, counts the set bits of every 32-bit word |
| Bitmap.MyBitmap.constructor | binlog/src/my_bitmap.cpp:48-57 | a new map has its mask set up and no bit set |
| Bitmap.MyBitmap.CreateLastWordMask | binlog/src/my_bitmap.cpp:2-31 | the mask that is written byte by byte has ones exactly above the last bit of the map |
| Bitmap.MyBitmap.BitsSet | binlog/src/my_bitmap.cpp:33-45 | the number of i below n_bits with the bit set, whatever the padding bits hold |
| FieldLength.LengthRoundTrip | binlog/src/LogEvent.cpp:6-33 | a length in the server's encoding is read back with the cursor behind it, if and only if it has at most 32 bits |
| FieldLength.LengthForms | binlog/src/LogEvent.cpp:6-33 | value and cursor for every first byte, NULL and forms longer than needed included |
| FieldWidth.WidthsAgreeExactly | binlog/src/binary_log_funcs.cpp:83-215 | the two width computations agree on every row content exactly for the columns of an explicit list of types and metadata |
| FieldWidth.SizesByCode | binlog/src/binary_log_funcs.cpp:190-215 | by literal type codes, the sizes that calc_field_size reads from the row, and its answer for types it does not know |
| FieldWidth.SameWidthExactly | binlog/src/LogEvent.cpp:412-729 | the cursor advances alike over two columns on every row content exactly when they have the same length bytes and the same constant |
| FieldWidth.AgreeingWidths | binlog/src/LogEvent.cpp:412-729 | for those columns the cursor advances by calc_field_size |
| TableDefinition.ReadMeta | binlog/src/TableDef.cpp:12-58 | one column's metadata, in the byte order of its type, and where the next one starts |
| TableDefinition.TableDef.constructor | binlog/src/TableDef.cpp:5-63 | the loop gives every column the metadata at the offset of the bytes before it |
| TableDefinition.NoMetadata | binlog/include/TableDef.h:51-56 | without a metadata block every column has metadata 0 |
| TableDefinition.MetadataRoundTrip | binlog/src/TableDef.cpp:12-58 | of the metadata block that a server writes, by literal type codes and byte orders, for a list of columns of any types, each column reads its own length, precision and scale, or real type back |
| TableDefinition.WrittenWidthsAgree | binlog/include/TableDef.h:26-45 | for the types and metadata listed in Written, after the change of type, the two width computations agree |
| RowCursor.PrintOneRow | binlog/src/LogEvent.cpp:864-880 | the cells and the length of a row are those of the cut that takes null bit j for the j-th present column |
| RowCursor.ReadColumn | binlog/src/LogEvent.cpp:871-878 | one turn of that loop keeps what was found and what is left together the whole row |
| RowCursor.RowWidth | binlog/src/LogEvent.cpp:864-880 | a row is its null bitmap and then exactly the sizes of its non-null present columns by calc_field_size |
| RowCursor.ServerRowWidth | binlog/src/LogEvent.cpp:864-880 | the same from the types and metadata of any table of the types listed in Written and any choice of present columns |
| RowCursor.RowRoundTrip | binlog/src/LogEvent.cpp:412-729 | a row image laid out by a writer is cut into its own cells, whatever the padding of its null map and whatever follows |
| RowCursor.RowByNumber | binlog/src/LogEvent.cpp:864-880 | a row whose null map, low byte first, is the sum of 2^j over its null cells j, with any padding above, is cut into exactly those cells |
| TableSchema.ColumnReads | binlog/src/LogEvent.cpp:412-729 | for every column of the format whose fields can be measured, told by its literal type code and metadata bytes, the reader measures its values as the format lays them out |
| TableSchema.SchemaRoundTrip | binlog/src/LogEvent.cpp:864-880 | for every table of such columns, every choice of them as the number of the bitmap and every row of nulls and values: from the bytes of the metadata, the null map and the fields the row is cut into exactly its values |
| RowCursor.RowsEvent.ParseEvent | binlog/src/LogEvent.cpp:834-862 | the stored images are those of the cut of the whole event, with an update's second image appended to its first, and the checksum is what is left |
| RowCursor.EventRoundTrip | binlog/src/LogEvent.cpp:834-862 | the rows of an event, single or in pairs, are cut exactly where a writer put them, when the after image has columns of the same shapes as the before image |
| RowCursor.EventRoundTripExactly | binlog/src/LogEvent.cpp:801-862 | for every choice of before and after columns on which the two widths agree: all events are cut as written if and only if they hold single images or the two lists are as long and have the same shapes in order |
| RowCursor.StoredImages | binlog/src/LogEvent.cpp:842-855 | what is stored of an event that is cut as written: the before images, and of an update each before image with the after image behind it |
| RowCursor.AfterColumnsIgnored | binlog/src/LogEvent.cpp:850-851 | an update of one column that names two in its after image makes the cursor run past the rows, whatever the checksum |
| LogTail.FileCache.ReadCache | binlog/src/FileCache.cpp:55-94 | a block that is empty or runs past the end fails; otherwise the next bytes are read and the position advances |
| LogTail.ParseLogEntry.CheckHeader | binlog/src/ParseLogEntry.cpp:77-121 | succeeds exactly when some event is not a header event, and stops before the first such event |
| LogTail.ParseLogEntry.ParseOneEvent | binlog/src/ParseLogEntry.cpp:153-258 | one event read, and its effect on what is remembered and handed on; an unknown type fails |
| LogTail.ParseLogEntry.ParseEvents | binlog/src/ParseLogEntry.cpp:122-151 | events are applied in turn up to the first of unknown type |
| LogTail.ParseLogEntry.ParseBegin | binlog/src/ParseLogEntry.cpp:61-76 | result and whole state after one poll of a snapshot |
| LogTailTheorems.PollContinues | binlog/src/ParseLogEntry.cpp:61-76 | a poll takes a reader that has seen n events of the final file to what it has when it has seen more |
| LogTailTheorems.UnknownEventLoses | binlog/src/ParseLogEntry.cpp:181-185 | with an effective event after one of unknown type, a chain of three polls keeps what one poll loses |
| LogTailTheorems.TailingExactly | binlog/src/ParseLogEntry.cpp:61-258 | every chain of snapshots on event boundaries gives the rows, table maps and queries of one reading of the final file if and only if no effective event follows an unknown one |
| LogTailTheorems.Follow | binlog/src/BinlogMonitor.cpp:33-34 | the loop that reopens and parses runs that chain of polls |
| LogRows.EventLayout | binlog/src/ParseLogEntry.cpp:153-180 | an event laid out byte by byte is taken for an event of its type and length |
| LogRows.FileLayout | binlog/src/ParseLogEntry.cpp:77-86 | a log is the four bytes FE 62 69 6E and its events, each where the one before it ends |
| LogRows.ReadingTells | binlog/src/ParseLogEntry.cpp:122-278 | one reading of any list of events hands on, in order, exactly the events of types 23 to 25 and 30 to 32 up to the first unknown one, each with its place and with the latest table map of its own table id, the latest query and the latest table map before it |
| LogRows.SomePartIsRead | binlog/src/ParseLogEntry.cpp:77-151 | every list of events has such a part: behind the leading events, up to the first unknown one |
| LogRows.FollowingTells | binlog/src/ParseLogEntry.cpp:61-278 | so does every chain of polls, when nothing that counts follows an unknown event |
| LogRows.PollOutcome | binlog/src/ParseLogEntry.cpp:61-76 | when a poll fails, and where the next one goes on |
| StoreCodes.SplitStrToVector | syncshare/comm.cpp:134-151 | the codes between commas and NULs, after leading spaces, without an empty last one |
| StoreCodes.JoinRoundTrip | syncshare/comm.cpp:134-151 | a list of codes joined with commas is split into the same codes if and only if none holds a comma or NUL, the last is not empty and the first does not start with a space |
| StoreCodes.WovenRoundTrip | syncshare/comm.cpp:134-151 | any string, told as leading spaces, pieces that end in a comma or NUL and a last piece, is split into those pieces, without an empty last one |
| StoreCodes.EveryListIsWoven | syncshare/comm.cpp:134-151 | every string can be told so |
| StoreRegistry.HandlerClientSocket.HandlerMessage | DataSync/HandlerClientSocket.cpp:228-263 | the whole registry after a client's message, and whether it is accepted |
| StoreRegistry.SocketServer.AddClient | DataSync/SocketServer.cpp:126-129 | a new client is last in the list, and no client is in it twice |
| StoreRegistry.SocketServer.CheckClientsIdExist | DataSync/SocketServer.cpp:322-333 | whether some client has the id |
| StoreRegistry.SocketServer.RemoveDisconnectStore | DataSync/SocketServer.cpp:172-176 | the first entry with the code is removed |
| StoreRegistry.SocketServer.DealDisconnectStore | DataSync/SocketServer.cpp:248-256 | one retry when the store is disconnected, none otherwise |
| StoreRegistry.SocketServer.DealDisconnectStores | DataSync/SocketServer.cpp:239-262 | one retry for every disconnected store that is addressed, in order |
| StoreRegistry.SocketServer.DispatchMessage | DataSync/SocketServer.cpp:184-217 | all clients' sent messages and all retries after a dispatch of any type |
| StoreRegistry.SocketServer.DispatchOneMessage | DataSync/SocketServer.cpp:219-236 | the same for the dispatch of a retried message |
| StoreRegistry.SocketServer.SendHeartbeat | DataSync/SocketServer.cpp:270-307 | the whole registry after a round of heartbeats, with clients erased during the loop |
| RegistryTheorems.RegistryInvariant | DataSync/SocketServer.cpp:126-333 | in every reachable state registered ids are distinct, the disconnect list has no repetitions, and no store is in both |
| RegistryTheorems.HeartbeatConserves | DataSync/SocketServer.cpp:270-307 | a round of heartbeats neither forgets nor invents a store |
| HeartbeatTheorems.RoundOfHeartbeats | DataSync/SocketServer.cpp:270-307 | after a round the clients are, in order, those whose socket is established and whose heartbeat is at most 18 seconds old, each with one hello more and otherwise as it was; in every sound registry the names of the others join the waiting stores in order |
| HeartbeatTheorems.LiveStoreStays | DataSync/SocketServer.cpp:270-307 | a store heard of at time t, by a heartbeat or its registration, is connected after every run whose rounds find its socket established no later than t + 18 |
| RegistryTheorems.RegistrationKnows | DataSync/HandlerClientSocket.cpp:231-243 | after an accepted registration the known stores are the old ones without the client's former name, and the new name |
| DispatchTheorems.MessageChanges | DataSync/HandlerClientSocket.cpp:228-263 | when a message is refused, and what an accepted one changes: the client's name, its time and the waiting stores, and nothing of any other client |
| RegistryTheorems.DispatchHandlesOnce | DataSync/SocketServer.cpp:184-262 | in every reachable state each known store that is addressed gets the message exactly once, as one send attempt when connected and as one retry when not, and every other known store gets nothing; with the exact exception for codes that hold a NUL |
| RegistryTheorems.NulHidesStore | DataSync/SocketServer.cpp:184-256 | for every store there is a run after which it is disconnected and a dispatch to its name with a NUL and anything after it changes nothing |
| DispatchTheorems.DispatchToClients | DataSync/SocketServer.cpp:184-217 | for every registry, type and code, which clients get the message: all, those listed, or the first of the name; every other client and everything else about them stays |
| DispatchTheorems.DispatchToWaiting | DataSync/SocketServer.cpp:239-262 | the retries are those for the waiting stores that are addressed, in the order of their waiting |
| RegistryTheorems.DispatchOneNeverDrops | DataSync/SocketServer.cpp:219-236 | a retried message goes to the first client with the code or becomes one retry; other types change nothing |
| MessageQueues.QueuesInvariant | DataSync/CProcessMqData.cpp:158-222 | over every interleaving and every wake-up: one thread has the mutex, each queue holds at most 1000 items, delivered followed by queued is accepted in order, and accepted and refused together are what arrived |
| MessageQueues.OnlyHoldersChangeQueues | DataSync/CProcessMqData.cpp:158-222 | a queue changes only by the holder of the mutex, at a producer's first test or a consumer's take, so a producer that waited adds nothing |
| MessageQueues.ProducerAddsOrSleeps | DataSync/CProcessMqData.cpp:165-170 | a producer appends its item, or leaves a full queue as it is and sleeps |
| MessageQueues.ConsumerGetsOldest | DataSync/CProcessMqData.cpp:176-190 | a consumer gets the oldest item, and nothing only when it has slept and the queue is empty |
| MessageQueues.SleepersAreOwed | DataSync/CProcessMqData.cpp:158-222 | with two threads or consumers of one queue, over every interleaving: while a consumer of a queue sleeps, its items are no more than the threads about to signal or woken to take, so when nobody is acting all that was accepted is delivered |
| MessageQueues.ConsumersSleepBesideItem | DataSync/CProcessMqData.cpp:172-187 | with any three threads or more, a run after which both consumers sleep while an item is queued and no call is in progress |
| MessageQueues.StrandsExactly | DataSync/CProcessMqData.cpp:158-222 | for every number of threads and queues with consumers: no run leaves a consumer asleep beside an item of its queue with nobody acting if and only if there are at most two threads or at most one such queue |
| MessageQueues.RoomInvariant | DataSync/CProcessMqData.cpp:158-222 | with two threads or one that produces, over every interleaving: while a producer sleeps beside room in its queue, a consumer is about to signal for producers |
| MessageQueues.ProducerSleepsBesideRoom | DataSync/CProcessMqData.cpp:165-190 | with any three threads or more, for any two of them that produce, a run after which one of the two sleeps beside 999 items and no call is in progress |
| MessageQueues.ForgetsExactly | DataSync/CProcessMqData.cpp:158-222 | for every number of threads and every choice of those that produce: no run leaves a producer asleep beside room in its queue with nobody acting if and only if there are at most two threads or at most one of them produces |
| Md5Words.LowRotate | public/Md5.cpp:60 | the rotation macro in 64-bit words rotates the low 32 bits |
| Md5Words.Tables | public/Md5.cpp:74-152 | the block word and the shift amount of every step are those of section 3.4 of RFC 1321 |
| Md5Sines.SineConstants | public/Md5.cpp:74-152 | every constant is the integer part of 2^32 times the absolute value of the sine of its number, by bounds from the series of sine and cosine |
| Md5Sines.PartialSums | public/Md5.cpp:74-152 | there are numbers as near to the series as that theorem asks: the partial sums |
| Md5Words.LowMix | public/Md5.cpp:72-135 | the program's four mixing functions are those of the RFC on the low halves |
| Md5Words.WidthIndependence | public/Md5.cpp:39-160 | a block processed in 64-bit words changes the low halves as the 32-bit algorithm of the RFC does, whatever the high halves hold |
| Md5.HighCount | public/Md5.cpp:171-175 | the high half of the bit count is right if and only if the update is shorter than 2^29 bytes or its low half carries, and otherwise one too large |
| Md5.Context.Process | public/Md5.cpp:39-160 | the state after a block |
| Md5.Context.Update | public/Md5.cpp:162-197 | after any updates, state, buffered bytes and low bit count are those of the concatenation; both counts advance as the count function says |
| Md5.PadsAsRfc | public/Md5.cpp:199-218 | the padding is the shortest one of section 3.1 of RFC 1321 |
| Md5.Context.Finish | public/Md5.cpp:207-225 | the digest is that of everything seen, the padding and the two counts |
| Md5.DigestIsRfc1321 | public/Md5.cpp:39-225 | processing the padded message in 64-bit words gives the digest of RFC 1321 |
| Md5.DigestOfUpdates | public/Md5.cpp:162-225 | for any split into updates shorter than 2^29 bytes the digest is that of RFC 1321 |
| Md5.GenerateMD5 | public/Md5.cpp:227-233 | one update with the whole buffer: the digest of RFC 1321 below 2^29 bytes, and what is processed above |
| Md5.PaddedExactlyWhenShort | public/Md5.cpp:171-175 | the processed message is the padded message of the RFC if and only if it is shorter than 2^29 bytes |
| Base64.EncodedLength | syncshare/base64.cpp:26-67 | four characters for every three bytes begun |
| Base64.EncodedAt | syncshare/base64.cpp:17-67 | every character of an encoding, by the table of RFC 4648 and the base-64 digits of the number of its three bytes, or the padding |
| Base64.SextetsAreDigits | syncshare/base64.cpp:36-39 | the four indices are the base-64 digits of the 24-bit group, as section 4 of RFC 4648 has it |
| Base64.ValueOf | syncshare/base64.cpp:17-24 | the characters that are decoded are those of table 1 of RFC 4648, each with its place there; every other one gives 255 |
| Base64.Base64Encode | syncshare/base64.cpp:26-67 | the two loops and the padding give the encoding |
| Base64.Base64Decode | syncshare/base64.cpp:69-108 | the loop over the usable characters and the last group give the decoding of any string |
| Base64.DecodedAt | syncshare/base64.cpp:69-108 | every byte decoded of any string, malformed ones included, by the places of its characters in the table |
| Base64.FillerNeverShows | syncshare/base64.cpp:93-104 | whatever stands for the missing characters of the last group reaches no output byte |
| Base64.Base64RoundTrip | syncshare/base64.cpp:26-108 | decoding an encoding gives every byte string back |
| UrlCodec.Encode | syncshare/urlencode.cpp:36-56 | an encoding is no shorter than its input and at most three times as long |
| UrlCodec.EncodedByte | syncshare/urlencode.cpp:36-56 | a space is a plus, letters, digits, '-', '.' and '_' stand for themselves, every other byte is a percent sign and its two hex digits |
| UrlCodec.UrlEncode | syncshare/urlencode.cpp:29-62 | the allocated buffer holds the encoding and a NUL |
| UrlCodec.UrlDecode | syncshare/urlencode.cpp:65-86 | decoding in place, the write cursor never past the read cursor; bytes behind the input stay |
| UrlCodec.DecodedEscape | syncshare/urlencode.cpp:69-83 | a percent sign and two hex digits of either case are the byte they spell |
| UrlCodec.DecodedPlain | syncshare/urlencode.cpp:69-83 | a plus is a space, and every other character, a percent sign without two digits too, stands for itself |
| UrlCodec.UrlRoundTrip | syncshare/urlencode.cpp:29-86 | decoding an encoding restores every byte string, zero bytes included |
| UrlCodec.RestoreInPlace | syncshare/urlencode.cpp:29-86 | encoding into a buffer and decoding it there leaves the original bytes |

## Left out

- Sockets, threads, the accept loop, `pthread_cancel` and sleeping: operating-system calls. A send is an entry in the
  client's list of sent messages whether or not the network takes it, a retry push an entry in a list.
- Each socket handler, heartbeat round and dispatch is one atomic step; the program's lock covers only part of each.
- `dealDisconnectSocket` and `addDisconnectStore`: nothing calls them.
- `ConsumerRawData` and `CRowData`'s consumer: after a wake-up on an empty queue they use an unset pointer.
- In the log reader `long` has 32 bits, the common header of the format description event is 19 bytes, files are
  shorter than 2^31 bytes and do not grow while a snapshot is parsed.
- LogTail.ParseLogEntry.ParseBegin: the file is a magic and whole events, each longer than its 19-byte header (a
  block of no bytes reads as a failure); tails that end inside an event are not modelled.
- LogTail.ParseLogEntry.ParseOneEvent: a rows event is kept as its bytes with the table map, query and last table
  map found for it; a rows event without a query or a table map, where the program follows a null pointer, is kept
  with none. Row images inside it are the subject of RowCursor.
- RowCursor.PrintOneRow: a cell is the null bit or the bytes of the field. The decoded value is modelled for
  NEWDECIMAL and the temporal types only; types for which the program stores no value (BIT, TIMESTAMP, NEWDATE, SET,
  BLOB, STRING) and the value of TINY, taken from the pointer, are not told apart.
- RowCursor.RowsEvent.ParseEvent: rows lie in the buffer and at least one column is present; otherwise the program
  reads past the buffer or does not end.
- LogRows.ReadingTells: table maps and rows events hold a table id, that is have at least 23 bytes; of shorter ones the
  program reads the id from behind the event.
- TableSchema.SchemaRoundTrip: columns on which the two widths differ, JSON, GEOMETRY and VAR_STRING among them, and the
  old DECIMAL type are not in the schema; what the reader makes of them is in FieldWidth.
- TableDefinition.TableDef.constructor: the theorems about columns ask for a nonempty metadata block, because the
  type of a column indexes the metadata whatever its size.
- FieldWidth.WidthsAgreeExactly: NEWDECIMAL metadata has its scale at most its precision; otherwise both
  computations index a table out of bounds.
- `decimal2string` with a fixed precision: nothing calls it so. The last fraction word wraps as two's complement
  where it overflows `int`.
- `number_to_time`, `str_to_datetime`, `my_system_gmt_sec` and other parts that are commented out, depend on the
  host's time zone or would add easier members of the same kind.
- Day numbers and packed values are unbounded: years far beyond 9999 would overflow `int` in the program.
- Bitmap.MyBitmap.BitsSet: asks for at least one bit; a map without bits has no word to read.
- `bitmap_set_bit` and the other operations on bitmaps that the reader does not use.
- Md5.HighCount: lengths from 2^61 bytes on, where the shift itself wraps, are in the count function but in no theorem.
- The constructors of `MD5` from text and its other operators, iconv, logging, configuration and exceptions.
- Floating-point conversion, `malloc` failure, and foreign libraries.
- JSON and GEOMETRY columns with the metadata a server gives them are outside Written and, like every column on which
  the two widths differ, outside the round trips of rows and events.
- Queue fairness: no claim is made that a thread that can go on ever does, so that a signal that is owed is ever sent.
