# Verification of the Ignite 3 Go client

A Dafny model of the client's binary tuple codec, its request/response protocol and its batch writes, with proofs of
what each of them guarantees. Every main result holds for all inputs, all runs or all interleavings. Where the code
does not do what it is meant to do, the code is modelled as written and the exact condition under which it succeeds is
proved as an equivalence.

The modules follow the program:

* `Bytes`, `Types` - bytes, endianness, fixed-width wrap-around, the kinds of columns, Go values, errors and panics.
* `TwosComplement`, `Integers`, `Temporal`, `Uuids`, `DecimalText` - the per-type rules of the tuple format.
* `Elements`, `BinaryTuple`, `TupleReader`, `Tuples`, `SqlArguments`, `ArgumentReader` - elements, rows, the decoder,
  and the (type, scale, value) triples of SQL arguments, each with its round trip.
* `Acceptance`, `Readings`, `ArgumentTypes` - the same from outside: which values and rows are taken and which error the
  others get, what bytes of any writer read as, and the type ids of arguments, with ids, widths and ranges as numbers.
* `Msgpack`, `Requests`, `Responses` - self-delimiting integers, texts and binaries, request and response frames, and
  what a caller makes of a response.
* `Protocol`, `SerialClient` - many concurrent callers of one connection, and one caller on a failing connection, both
  down to the bytes of the streams.
* `Tables` - key columns, tuples built from rows by name, and all-or-nothing batches.

Go panics are an outcome of their own (`Outcome.Panic`), next to values and errors. Code that works step by step is a
method with loops or a class with fields; each is proved equal to a specification function, and the theorems are about
those functions. `dafny verify dfyconfig.toml` checks the project.

Main results, and what they show about the code:

1. **Rows** (`TupleReader.WholeRowRoundTrip`). Every row that can be built decodes, NULL comes back as nil, and value i
   comes back if and only if it is in the domain `Elements.Survives`, a condition on the value that can be checked
   before writing. The excluded families: a UUID that is not symmetric under the byte flip (written unflipped, read
   flipped), a TIMESTAMP with no nanoseconds (8 bytes written, 12 read, a panic), a year before 0 (not sign-extended),
   an empty VARCHAR or VARBINARY (read as NULL), a VARCHAR that begins with byte 0x80, a DECIMAL scale outside int16,
   a uint64 above the int64 range, and the times that item 2 excludes. `TupleReader.BuiltRowPanics`: of all built rows
   only those timestamps panic when read. `TupleReader.DecodeExact`: of all byte strings, those decode that have a known
   header, their whole offset table, and offsets that rise from 0 to the end of the value area; the others are an error
   for the header and a panic otherwise. `Acceptance.RowBuildsExactly`: which rows can be built, value by value, and the
   error of the first value that is refused. `Tables.TableRowRoundTrip` starts from a row by column name.
   `Readings.ServerRowRead` and its companions say what rows of any other writer read as.
2. **Times** (`Temporal.ClockReadsBack`). The decoder picks its layout by the column's precision, the encoder always
   writes the 30-bit one. At precision 12 a time comes back exactly when it has no nanoseconds. At 0, 6 and 9 midnight
   comes back, and otherwise only one accidental fixed point: 10:42:42.721601 at 9, and 03:46:59.790 at 0 and 6 when
   the day is dropped (DATETIME).
3. **Decimals** (`TwosComplement`). The row encoder writes the shortest two's complement of every integer; the
   SQL-argument encoder does so if and only if the number keeps its leading byte, and on every other number its bytes
   read as something else.
4. **SQL arguments** (`SqlArguments.ArgumentListFraming`, `ArgumentReader.ArgumentListRead`). For every argument list
   that is accepted, the bytes that are written frame the type, scale and value of each argument if and only if no
   argument is nil and no decimal has a scale of 255 or more. A reader finds all of them exactly then, but for a nil at
   the end whose entries fit. The first argument that breaks the condition is itself misread
   (`ArgumentReader.FirstMisread`): any other nil makes the reader panic, a wide scale comes back cut or not at all.
   Each argument announces the id of its Go type (`ArgumentTypes.ArgumentOnTheWire`).
5. **Decimal text** (`DecimalText`). Printing and parsing are inverse if and only if the scale is not negative or the
   number is zero; scaling truncates toward zero, however the fraction was reduced. `DecimalText.ScaledText` does so for
   every text that is a number, and `DecimalText.PrintedNotation` says what is printed, digit by digit.
6. **Concurrency** (`Protocol.EveryCallGetsItsOwnResponse`, `Protocol.ReleaseExact`). Over every interleaving of
   operations and heartbeats, also when two callers share a request id, each call that finishes holds the server's
   response to its own request, and its reader discards no byte. Its id check passes if and only if the id it compares
   with is the id it sent. For operations that is always so. A heartbeat reads the counter twice without the lock, and
   passes when no other caller stores an increment in between (`Protocol.SecondReadAgrees`), in particular when there is
   only one caller; with two different ids it rejects its own healthy response (`Protocol.HeartbeatRejectsOwnResponse`).
   A call can finish if and only if the server understands its request: a heartbeat with an id of 128 or more announces
   too short a length, and then no call of any caller finishes again. While nothing of the kind happens, an idle caller
   can always complete a call (`Protocol.CallCompletes`). A caller on its own counts every increment and never reuses an
   id (`Protocol.SoleCallerCounts`); callers together may lose increments (`Protocol.CounterBounds`).
7. **Failures** (`SerialClient.StaleResponsesAreRejected`, `SerialClient.NoCallSucceedsOnceBehind`). After any sequence
   of failed calls whose readers stop at frame boundaries, a call returns the result of its own response exactly when
   nothing stands in its way, and is rejected otherwise. The price is that no call succeeds again once a response was
   left unread, as long as readers take a single response; a reader that takes everything clears what was left
   (`SerialClient.GreedyReaderRecovers`). Without the boundary it fails: `SerialClient.MisalignedExample`.
8. **Batches and keys** (`Tables`). A batch writes nothing or exactly one frame that parses back to its rows in order;
   the key tuple is the projection of the full tuple. With distinct key indexes, two delete batches whose rows agree on
   the key columns put the same request data on the wire (`Tables.DeletesOfSameKeys`). What a batch reports is the
   server's error exactly when the response has the error flag (`Tables.BatchAnswered`).

Where comments or documentation and code disagree, the code is followed:

* The comment of `encodeDecimalUnscaled` (binary/v1/tuple.go:714-717) promises a minimal sequence that is read
  correctly; see item 3.
* README.md:161-162 calls the year of a date a signed 15-bit field; `decodeDate` reads it unsigned.
* README.md:282-284 says that times lose precision below a millisecond; for the bytes that this client writes, the
  shorter layouts read other fields altogether, and the nanosecond layout multiplies the fraction by 1000.
* The comment in `setNil` (binary/v1/tuple.go:416) says that NULL is absent from the value area; `Bytes` still writes
  its type and scale.

## Model

| member | source | states |
|---|---|---|
| TwosComplement.TwosComplementBytes | binary/v1/binary-tuple.go:368-396 | the sign-magnitude algorithm yields the shortest two's complement of every integer; its trim loop runs at most once and its last 0xff branch is dead |
| TwosComplement.MinimalReadsBack | binary/v1/tuple.go:303-308 | the DECIMAL reader recovers every integer from its shortest byte string |
| TwosComplement.MinimalIsShortest | binary/v1/binary-tuple.go:366-367 | no shorter byte string reads as the same integer |
| TwosComplement.CanonicalIsMinimal | binary/v1/binary-tuple.go:383-395 | a byte string without a redundant sign byte is the shortest one of what it denotes |
| TwosComplement.NegativeFitsLength | binary/v1/binary-tuple.go:381-383 | the length taken from the bit length fits a negative number and is at most one byte too long |
| TwosComplement.EncodeDecimalUnscaledExact | binary/v1/tuple.go:718-742 | the SQL-argument encoder reads back, and agrees with the row encoder, if and only if the number is not a negative one with 256 times its magnitude above 255 times 256^L |
| TwosComplement.EncodedNegativeReads | binary/v1/tuple.go:728-740 | what the bytes of any negative number read as: off by the power lost with the leading zero bytes |
| TwosComplement.DecimalLossExample | binary/v1/tuple.go:735-738 | -65535 is written as ff 01 and reads as -255 |
| Integers.DecodeBigEndianTwosComplement | binary/v1/tuple.go:697-712 | accumulating in a wrapping uint64 and subtracting a shifted one equals the signed reading for every length up to 8, where the shift by 64 gives 0; longer input is an error |
| Integers.TopBit | binary/v1/tuple.go:708-711 | the wrapped subtraction and the conversion to int64 agree with the signed value at every length |
| Integers.NarrowRoundTrip | binary/v1/tuple.go:120-125 | little-endian bytes, reversed and read big-endian, give back every number of that width |
| Integers.IntRoundTrip | binary/v1/binary-tuple.go:303-346 | encoding succeeds exactly on the kind's range, and what is encoded is read back at the kind's width |
| Integers.EncodeIntLeRoundTrip | binary/v1/tuple.go:682-693 | every int64 argument is read back |
| Integers.IntEncodersAgree | binary/v1/binary-tuple.go:330-342 | the two integer encoders write the same bytes if and only if it is not a BIGINT in -128..127 |
| Integers.IntEncodersSameValue | binary/v1/tuple.go:679-681 | where they differ both byte strings read as the same number |
| Temporal.DecodeDate | binary/v1/tuple.go:843-855 | the byte loop reads the day, month and unsigned year fields of the first three bytes; fewer bytes panic |
| Temporal.DateRoundTrip | binary/v1/tuple.go:777-803 | a date is accepted exactly in range, and is read back, whatever bytes follow, if and only if its year is not negative |
| Temporal.DateErrors | binary/v1/tuple.go:777-788 | month, then day, then year: the first out of range is the one reported |
| Temporal.PackedDateFields | binary/v1/tuple.go:787-798 | packed dates fit 24 bits and the three fields do not overlap |
| Temporal.PackedDatesOrdered | binary/v1/tuple.go:786-799 | packing is injective over the whole range and follows the calendar for years from 0 |
| Temporal.EncodeTime | binary/v1/tuple.go:805-841 | the shifting and byte loop write the packed 47-bit number, or the first range error |
| Temporal.ClockErrors | binary/v1/tuple.go:805-817 | the first field out of range, from the hour down, is the one reported |
| Temporal.DecodeTime | binary/v1/tuple.go:857-896 | the three backward loops read the last 4, 5 or 6 bytes by precision; shorter input panics, other precisions are errors |
| Temporal.DecodeTimeExtracts | binary/v1/tuple.go:860-894 | for the fraction width of its layout the decoder takes out every field, whatever bytes stand before |
| Temporal.TimeRoundTrip12 | binary/v1/tuple.go:882-893 | at precision 12 nanoseconds come back multiplied by 1000, so the time is right if and only if they are 0 |
| Temporal.ShorterLayoutShifts | binary/v1/tuple.go:860-881 | at precisions 0, 6 and 9 the decoder sees the packed number shifted right by the bytes it ignores |
| Temporal.MillisFixedPoints | binary/v1/tuple.go:860-870 | the only times that the 10-bit layout reads as themselves, up to whole days: midnight, and 03:46:59.790 a day late |
| Temporal.MicrosFixedPoints | binary/v1/tuple.go:871-881 | the only times that the 20-bit layout reads as themselves: midnight and 10:42:42.721601 |
| Temporal.ClockReadsBack | binary/v1/tuple.go:857-896 | at every precision and after any prefix: which written times are read as themselves, with and without the day, as an equivalence |
| Temporal.PackedTimesOrdered | binary/v1/tuple.go:819-834 | packed times fit 47 bits, order exactly like the clock, and are distinct for distinct times |
| Uuids.FlippedTwice | binary/v1/types.go:94-103 | flipping both halves twice changes nothing |
| Uuids.Uuid.Flip | binary/v1/types.go:94-103 | the in-place swaps reverse each half |
| Uuids.Uuid.MarshalMsgpack | binary/v1/types.go:105-112 | returns the flipped bytes and leaves the receiver flipped |
| Uuids.Uuid.UnmarshalMsgpack | binary/v1/types.go:115-128 | flips what it copied, or reports too few bytes with the receiver partly overwritten |
| Uuids.MarshalTwice | binary/v1/types.go:105-128 | what was marshalled unmarshals to the original; a second marshal of the same receiver writes the wrong order |
| DecimalText.FloatStringReduced | binary/v1/types.go:63-80 | the printed digits do not depend on how far the fraction was reduced |
| DecimalText.StringIs | binary/v1/types.go:74-80 | at a non-negative scale nothing is rounded: sign, quotient and padded remainder by 10^scale |
| DecimalText.PrintedNotation | binary/v1/types.go:74-80 | the printed text is sign and digits of the unscaled value with a point before the last scale digits, or with zeros appended for a negative scale, without redundant zeros in front |
| DecimalText.PrintedTextDenotesDecimal | binary/v1/types.go:63-80 | for both signs of the scale the text parses to the very fraction that BigRat returns |
| DecimalText.ParsedIsSpelled | binary/v1/binary-tuple.go:487 | only a sign or none, digits and perhaps a dot parse as a number |
| DecimalText.ScaledQuotient | binary/v1/binary-tuple.go:491-493 | scaling gives the truncated quotient of the unreduced fraction |
| DecimalText.ScalingTruncates | binary/v1/binary-tuple.go:484-494 | the result is less than one unit below the magnitude, with the sign of the number |
| DecimalText.ScaledText | binary/v1/binary-tuple.go:484-494 | for every text that is a number, the unscaled value is less than one unit below the number times ten to the scale, with its sign; a negative scale counts as none |
| DecimalText.OtherText | binary/v1/binary-tuple.go:487-490 | every other text gives zero at that scale |
| DecimalText.PrintParse | binary/v1/binary-tuple.go:486-494 | a printed decimal parses back at its own scale if and only if the scale is not negative or the number is zero |
| DecimalText.NegativeScaleExample | binary/v1/binary-tuple.go:491 | 123 at scale -2 prints as 12300 and parses to unscaled 12300 |
| Elements.AppendBinaryTupleValue | binary/v1/binary-tuple.go:140-299 | for every kind and every value, with its Go integer type, the buffer grows by exactly the specified bytes or the specified error is returned |
| Acceptance.AcceptedExactly | binary/v1/binary-tuple.go:140-299 | for every kind and every value, with its Go type: whether an element takes it, with integer and year ranges, and the error that anything else is refused with |
| Acceptance.IntegerWritten | binary/v1/binary-tuple.go:416-443 | an integer column holds the number that was given, and a uint64 beyond the int64 range as that number less 2^64 |
| Acceptance.BooleanWritten | binary/v1/binary-tuple.go:148-157 | a BOOLEAN is the byte 1 for true, for numbers and doubles other than zero, and for the texts true, TRUE and 1, and the byte 0 for all else that is taken |
| Acceptance.TextWritten | binary/v1/binary-tuple.go:267-278 | a VARCHAR holds the text, or the plain decimal notation of a number, or true or false, or one byte 0x80 for the empty text |
| Acceptance.DecimalWritten | binary/v1/binary-tuple.go:190-199 | a DECIMAL holds a decimal as it is, an integer at the column's scale, and the number that a text spells, truncated at the column's scale |
| Elements.AppendInt | binary/v1/binary-tuple.go:303-346 | trying the widths one by one writes the narrowest that the kind allows, or reports that none fits |
| Elements.NullIsZeroBytes | binary/v1/binary-tuple.go:137-143 | outside BtNull columns an element is empty if and only if its value is nil |
| Elements.EscapeInverts | binary/v1/binary-tuple.go:280-295 | the 0x80 escape is undone for every byte array, with runs of leading 0x80, and is never empty |
| Elements.StringReadsBack | binary/v1/tuple.go:126-138 | a VARCHAR comes back if and only if it is not empty and does not begin with 0x80; the empty one reads as NULL, and any other without its leading 0x80 |
| Elements.IntReadsBack | binary/v1/tuple.go:747-764 | every accepted integer of the four integer columns comes back |
| Elements.DecimalReadsBack | binary/v1/tuple.go:301-309 | every decimal comes back with its scale narrowed to int16 |
| Elements.DateReadsBack | binary/v1/tuple.go:310-316 | a DATE comes back if and only if its year is not negative |
| Elements.TimeReadsBack | binary/v1/tuple.go:317-323 | a TIME comes back at a precision if and only if it is one of the times that layout preserves |
| Elements.DateTimeReadsBack | binary/v1/tuple.go:324-338 | a DATETIME comes back if and only if its year is not negative and its time of day is preserved |
| Elements.TimestampReadsBack | binary/v1/tuple.go:898-902 | a TIMESTAMP comes back when it has nanoseconds; without them reading panics |
| Elements.ElementReadBack | binary/v1/tuple.go:270-358 | for every column type, precision and accepted value: the element is read as the value if and only if it is in the stated domain |
| Readings.TimesAreRead | binary/v1/tuple.go:317-338 | at each precision, a time packed in that precision's width is read back by TIME, and with its date by DATETIME, whatever bytes stand between |
| Readings.ZeroDateTime | binary/v1/tuple.go:324-338 | a DATETIME of one to six bytes is the zero time; of more bytes it is a date and time, the zero time only if the bytes are 0001-01-01 at midnight, or the precision error |
| Readings.IntegersRead | binary/v1/tuple.go:747-764 | integers of one to eight bytes read as the number of the column type that is congruent to them |
| Readings.PrefixesRead | binary/v1/tuple.go:286-349 | BOOLEAN, REAL and TIMESTAMP are read from their first 1, 4 and 12 bytes, whatever follows |
| Readings.UuidRead | binary/v1/tuple.go:346-349 | a UUID is its first sixteen bytes with each half in reverse |
| Readings.VariableRead | binary/v1/tuple.go:297-309 | a DOUBLE of four bytes is a float32, of eight a float64; a DECIMAL is a signed scale and an unscaled number of any length |
| Readings.TextsRead | binary/v1/tuple.go:126-138 | one leading 0x80 of a VARCHAR or VARBINARY is dropped, and what is left empty is NULL |
| Readings.ReadErrors | binary/v1/tuple.go:270-358 | the four errors of reading a value, each with its exact condition on type, length and precision; there is no other |
| Readings.ReadPanics | binary/v1/tuple.go:270-358 | the fewest bytes that each type can be read from, by precision for TIME; with fewer reading panics, and only then |
| BinaryTuple.BuildBinaryTuple | binary/v1/binary-tuple.go:86-135 | the two loops write header, end offsets and value area of the elements, or the first error in column order, or refuse a value area over the int32 limit |
| Acceptance.RowBuildsExactly | binary/v1/binary-tuple.go:86-135 | a row can be built if and only if it has a value for each column, each is taken, and the value area is at most 2^31 - 1 bytes; otherwise the error is the count, that of the first refused value, or the size |
| BinaryTuple.WriteTable | binary/v1/binary-tuple.go:123-130 | the truncated uint32 offsets are the end offsets in entrySize little-endian bytes |
| BinaryTuple.EntrySizeIsSmallest | binary/v1/binary-tuple.go:102-112 | the entry size is the smallest of 1, 2 and 4 bytes that holds the value area |
| BinaryTuple.OffsetsFit | binary/v1/binary-tuple.go:91-99 | the conversion to int32 changes no offset of an accepted value area |
| TupleReader.EntryReadsBack | binary/v1/tuple.go:660-677 | at every entry size the reader finds the written end offset |
| TupleReader.RawElementReadsBack | binary/v1/tuple.go:94-117 | every element of a framed row is cut out again, at every entry size that holds the row |
| Readings.ServerRowRead | binary/v1/tuple.go:79-149 | at every header from 0 to 3, element i of a row is read as its own bytes at its column's type and precision |
| Readings.AnyColumnRead | binary/v1/tuple.go:94-149 | whatever the column's type id and the type asked for, the bytes are kept by the id's int8 and read as the type asked for |
| TupleReader.DecodeExact | binary/v1/tuple.go:79-149 | which bytes decode, for any number of columns: the size error for none, the header error exactly for a header above 3, a value exactly with the whole table at entry size 2^header and offsets that never fall and stay within the value area, and a panic otherwise |
| TupleReader.RowReadsBack | binary/v1/tuple.go:79-149 | a built row decodes without error to its elements, one by one |
| TupleReader.WholeRowRoundTrip | binary/v1/tuple.go:270-358 | every row that can be built decodes, nil comes back as nil, and value i comes back if and only if it is in its domain |
| TupleReader.GetValuePanics | binary/v1/tuple.go:270-282 | for any bytes that decode to n columns, any index and type: the index error comes exactly outside 0..n, and reading panics exactly at index n or on an element that is not empty and shorter than its type needs |
| TupleReader.BuiltRowPanics | binary/v1/tuple.go:270-358 | reading a column of a row that was built panics if and only if it is a timestamp without nanoseconds |
| Tuples.Tuple.NewTupleFromByteArrayWithMetadata | binary/v1/tuple.go:79-149 | the decoding loop yields the specified elements, error or panic for every byte array |
| Tuples.CopyElement | binary/v1/tuple.go:118-143 | integers are copied in reverse, texts lose their escape, everything else is copied as it is; bad bounds panic |
| Tuples.Tuple.GetValue | binary/v1/tuple.go:270-358 | returns what the specified reading makes of the kept element, with the errors and panics of its decoders |
| Tuples.Tuple.AddValue | binary/v1/tuple.go:152-193 | appends one triple, or leaves the tuple as it was and reports the error |
| ArgumentTypes.ArgumentAccepted | binary/v1/tuple.go:152-193 | which arguments are taken, with scale and year ranges, the type id and scale kept for each, and the error of the others |
| Tuples.Tuple.Bytes | binary/v1/tuple.go:195-264 | header, offset table and value area of all arguments, at the entry size for their total |
| Tuples.WriteOffsetTable | binary/v1/tuple.go:219-242 | the running offset writes three entries an argument, each from where the previous argument ended |
| SqlArguments.TripleFraming | binary/v1/tuple.go:219-261 | the offsets, the entries reduced to the entry size, and the bytes as a whole are those of the pieces' container if and only if no argument is NULL and every scale is below 255 |
| SqlArguments.ArgumentListFraming | binary/v1/tuple.go:152-264 | for every accepted argument list the bytes are the container of its pieces if and only if no argument is nil and no decimal has a scale of 255 or more |
| SqlArguments.FrameableTotal | binary/v1/tuple.go:403-409 | for those arguments the running total is the size of the value area |
| SqlArguments.HeaderInverts | binary/v1/tuple.go:373-392 | fromHeader inverts toHeader at every entry size |
| SqlArguments.EntrySizeHolds | binary/v1/tuple.go:203-211 | the chosen entry size holds every offset |
| ArgumentTypes.ArgumentEntrySizes | binary/v1/tuple.go:203-211 | the entry size is the smallest whose largest value is above the total, so one larger than needed at 255, 65535 and 2^32 - 1, and the header is its logarithm |
| SqlArguments.FrameOfPieces | binary/v1/tuple.go:195-264 | framable arguments form a regular binary tuple of three elements each |
| SqlArguments.ArgumentsReadBack | binary/v1/tuple.go:219-261 | a reader of the container finds type, scale and value of every argument, at every entry size |
| SqlArguments.ArgumentRoundTrip | binary/v1/tuple.go:411-658 | the value bytes of an accepted argument read back as the argument if and only if it is in the stated domain |
| SqlArguments.DecimalArgument | binary/v1/tuple.go:542-562 | a decimal argument comes back if and only if its unscaled value keeps its leading byte |
| SqlArguments.UuidArgument | binary/v1/tuple.go:565-580 | every UUID argument comes back, unlike a UUID in a row |
| SqlArguments.TimestampArgument | binary/v1/tuple.go:604-620 | every timestamp argument comes back, also without nanoseconds |
| SqlArguments.SqlArgumentEndToEnd | binary/v1/tuple.go:152-264 | from an accepted argument list without nil and wide scales through the container: argument k is recovered if and only if it is in its domain |
| ArgumentTypes.ArgumentOnTheWire | binary/v1/tuple.go:195-264 | elements 3k, 3k+1 and 3k+2 of the container are the id of the argument's Go type, its scale, and bytes that read as the argument at that id exactly on its domain |
| ArgumentReader.ContainerRead | binary/v1/tuple.go:94-117 | whatever offsets stand in the table, the reader cuts the value area at those offsets reduced to the entry size |
| ArgumentReader.FirstMisread | binary/v1/tuple.go:219-261 | behind framed arguments, the three elements of an argument are found if and only if it is framed itself, or is a NULL at the very end whose entries fit |
| ArgumentReader.NullPanics | binary/v1/tuple.go:225-240 | any other NULL makes the reader panic at its scale or at its value |
| ArgumentReader.AllReadExact | binary/v1/tuple.go:195-264 | all triples of a list are found if and only if all are framed, but for such a NULL at the end |
| ArgumentReader.ArgumentListRead | binary/v1/tuple.go:152-264 | the same for every accepted argument list, with the condition on the arguments: no nil and no scale of 255 or more, but for a trailing nil whose entries fit |
| Msgpack.IntReadsBack | binary/v1/types.go:392-395 | packed integers are self-delimiting: the number and whatever follows are recovered |
| Msgpack.IntIsShortest | binary/v1/types.go:392-395 | no byte string that decodes as the number is shorter than the packed one |
| Msgpack.IntIncomplete | binary/v1/types.go:392-395 | no proper prefix of a packed integer decodes |
| Msgpack.BinReadsBack | binary/v1/types.go:387-390 | packed binaries are self-delimiting below 4 GiB |
| Msgpack.BinIsShortest | binary/v1/types.go:387-390 | no byte string that decodes as the binary is shorter than the packed one |
| Msgpack.StrReadsBack | binary/v1/types.go:398-401 | packed texts are self-delimiting below 4 GiB |
| Msgpack.PrefixReadsBack | binary/v1/response.go:28-43 | a length-prefixed frame is cut off the stream exactly, whatever follows |
| Msgpack.PrefixIncomplete | binary/v1/response.go:28-43 | no proper prefix of a frame counts as arrived |
| Requests.RequestReadsBack | binary/v1/request-operation.go:23-56 | a request frame parses back to code, id and data and leaves the rest of the stream |
| Requests.OperationCodes | binary/v1/operations.go:7-23 | the fifth byte of a heartbeat is 1, of an upsert batch 13 and of a delete batch 29 |
| Requests.HeartbeatFraming | binary/v1/request-heartbeat.go:19-33 | the constant length of a heartbeat is right if and only if its id packs into one byte |
| Requests.HeartbeatUnderstood | binary/v1/request-heartbeat.go:19-33 | a server that reads the stream finds the heartbeat if and only if its id packs into one byte, and otherwise nothing, whatever follows |
| Requests.BatchReadsBack | binary/v1/client-tuple-operations.go:67-99 | a batch payload parses back to table, version and exactly its tuples in order |
| Responses.ResponseOperation.ReadFrom | binary/v1/response-operation.go:50-120 | for every payload in the MessagePack types the server sends, all fields, also those set before an error, and the rest or the first failing field are as specified; the library's lenient decodings, such as nil as 0, are errors here |
| Responses.ResponseOperation.CheckStatus | binary/v1/response-operation.go:126-132 | an error is reported if and only if the error flag is set, with the narrowed code and message and details in one text |
| Responses.ReceiveOperation | binary/v1/client-tuple-operations.go:99-106 | reading a payload into a new response and checking its status gives the specified result of the operation |
| Responses.ResponseReadsBack | binary/v1/response-operation.go:50-120 | every response a server can form sets exactly its fields and leaves its data, and is accepted if and only if its id is the request's |
| Responses.TimestampRead | binary/v1/types.go:348-357 | a timestamp of ms times 2^16 is read as the whole seconds of ms, toward zero, with no nanoseconds; of the low 16 bits the lowest byte counts as milliseconds |
| Responses.TruncatedHeader | binary/v1/response-operation.go:57-83 | a response that ends before its observable timestamp does is malformed in exactly the field in which it ends |
| Responses.TruncatedError | binary/v1/response-operation.go:90-110 | one that ends inside its error report is malformed in exactly that field of the report |
| Responses.ReportReadsBack | binary/v1/response-operation.go:90-117 | the error report is recovered field by field, with the UUID in its original order |
| Responses.FlagsSurviveNarrowing | binary/v1/response-operation.go:66 | narrowing the flags to int32 keeps every bit the client tests |
| Responses.StatusReported | binary/v1/response-operation.go:50-132 | from the server's response to the caller: the data, the server's own error exactly when bit 2 of the flags is set, or a mismatch exactly when the ids differ |
| Responses.ResponseHeartbeat.ReadFrom | binary/v1/response-heartbeat.go:32-66 | id and status are read as int8, the status is judged before the id, and success leaves the rest |
| Responses.HeartbeatReported | binary/v1/response-heartbeat.go:32-66 | for every heartbeat response: refused for a status other than 0, then rejected for another id, both as int8, otherwise what follows |
| Responses.TruncatedHeartbeat | binary/v1/response-heartbeat.go:32-66 | a heartbeat response that ends early is malformed in exactly the field in which it ends, whatever its id and status |
| Protocol.StepKeepsInv | binary/v1/client.go:250-265 | every step of every caller, of the two unlocked reads and the increment of a heartbeat, and of the server keeps the invariant |
| Protocol.RunKeepsInv | binary/v1/client.go:250-265 | so does every run, with both reads of every heartbeat as steps of their own |
| Protocol.EveryCallGetsItsOwnResponse | binary/v1/client.go:250-265 | over every interleaving of operations and heartbeats at most one request is outstanding, each finished call holds the response to its own request, its reader discarded nothing, and its id check (as int8 for a heartbeat) passes if and only if the id it compares with is the one it sent, which for operations always holds; a heartbeat with two different ids rejects its own response |
| Protocol.SecondReadAgrees | binary/v1/client.go:338-341 | a heartbeat compares with the id it sends if no other caller stores an increment between its two reads |
| Protocol.SoleCallerPasses | binary/v1/client.go:338-350 | the finished call of an only caller passes its id check, after any run |
| Protocol.SoleCallerCounts | binary/v1/client.go:250-261 | after any run of a lone caller the counter is its start plus the increments stored, and the ids of its requests strictly increase |
| Protocol.CounterBounds | binary/v1/client.go:338-341 | after any run of any callers the counter lies above its start, if anything was stored, and at most the stored increments above it |
| Protocol.UndisturbedIncrement | binary/v1/client.go:258-259 | a load and a store of one caller with no other store between them move the counter by exactly one |
| Protocol.HeartbeatRejectsOwnResponse | binary/v1/client.go:338-345 | a run in which a finished heartbeat holds its own healthy response and rejects it, because another heartbeat counted between its two reads |
| Protocol.MutualExclusion | binary/v1/client.go:251-252 | no two callers are between locking and returning at once |
| Protocol.IdsCoincide | binary/v1/client.go:338-341 | two calls can carry the same request id, because it is read outside the lock |
| Protocol.HolderAdvances | binary/v1/client.go:250-265 | the holder of a request that the server understands is never stuck, and each step brings the release nearer |
| Protocol.LockIsReleased | binary/v1/client.go:250-265 | at most six steps then finish the call, whatever the server answers, the answer is the holder's, and the counter was incremented |
| Protocol.CallCompletes | binary/v1/client.go:250-265 | whenever the lock is free, an idle caller with a request the server understands can finish its call, under the counter's id, with what the server answers, moving the counter by one, or by two for a heartbeat |
| Protocol.ArrivesInPieces | binary/v1/response.go:28-43 | in whatever pieces a response comes, its reader takes all of them and only then returns |
| Protocol.DoomedForever | binary/v1/client.go:250-265 | with a request that is not understood, no run releases the lock, and the server answers nothing more |
| Protocol.ReleaseExact | binary/v1/client.go:250-265 | some run releases the lock if and only if the server understands the holder's request |
| Protocol.LateHeartbeatHangs | binary/v1/client.go:338-345 | a heartbeat that finds the counter at 128 or more reaches such a state |
| SerialClient.Client.Do | binary/v1/client.go:250-265 | the connection's new state and the result, for every combination of failing write, failing read, bytes taken and older bytes in the stream |
| SerialClient.Client.SendHeartbeat | binary/v1/client.go:338-350 | the id is taken before the first of two increments; status and extra field decide the result, and a misframed heartbeat leaves the server deaf |
| SerialClient.FramesRead | binary/v1/response.go:28-43 | for every length and whatever follows: too few bytes are a failure, a length with the sign bit panics, otherwise exactly that many bytes |
| SerialClient.CallsKeepInv | binary/v1/client.go:255-261 | after any aligned calls the delivered ids strictly increase below the counter, and the stream is whole responses with older ids |
| SerialClient.CallResult | binary/v1/client.go:250-265 | in such a state a call returns its own response's result if nothing stands in its way, and is rejected otherwise |
| SerialClient.TransportFails | binary/v1/client.go:255-264 | a failed write or read, and a response that cannot come, is an error of the connection; a failed write of an operation changes nothing |
| SerialClient.StaleResponsesAreRejected | binary/v1/response-operation.go:85-87 | after any aligned calls, whatever failed: ids on the wire increase, and a call gets its own result, the server's error included, exactly when nothing fails, nothing older waits and the server can hear it |
| SerialClient.MisalignedExample | binary/v1/client.go:262 | a reader that stopped inside a response makes a later call return bytes of an old answer as its own |
| SerialClient.ReadIds | binary/v1/response-heartbeat.go:40-63 | an older id is never taken for a newer one, not even narrowed to int8 |
| SerialClient.FailedReadLeavesBehind | binary/v1/client.go:255-264 | a delivered call whose read fails, or that the server cannot understand, leaves the connection behind |
| SerialClient.TakenIsLost | binary/v1/client.go:262 | the bytes that a reader takes are gone from the connection, also those beyond the response it returns |
| SerialClient.NoCallSucceedsOnceBehind | binary/v1/client.go:250-265 | and then no later call succeeds while every reader takes a single response |
| SerialClient.GreedyReaderRecovers | binary/v1/client.go:255-264 | a reader that takes everything clears older responses: it is rejected, and the next call gets its own result |
| Tables.KeyColumns | binary/v1/client-schemas.go:56-65 | returns a permutation of the key columns ordered by key index |
| Tables.KeyOrderUnique | binary/v1/client-schemas.go:63-64 | with distinct key indexes the unstable sort has one outcome only |
| Tables.BuildTuple | binary/v1/client-tuple-operations.go:147-166 | the tuple is one that some iteration order of the row map allows, built from the columns in order with nil for missing names |
| Tables.TupleIsDetermined | binary/v1/client-tuple-operations.go:151-154 | with row names distinct ignoring case there is exactly one such tuple |
| Tables.TableRowBuilds | binary/v1/client-tuple-operations.go:147-166 | a row by name can be built if and only if each value whose name equals a column's ignoring case is one that the column takes, and the size fits |
| Tables.TableRowRoundTrip | binary/v1/client-tuple-operations.go:147-166 | from a row by name through its tuple: column i reads as the value of that name exactly on its domain, and as nil if there is none |
| Tables.KeyTupleExists | binary/v1/client-tuple-operations.go:147-150 | whenever the full row can be built, so can its key |
| Tables.KeyProjection | binary/v1/client-tuple-operations.go:147-166 | element k of the key tuple is the full tuple's element for the k-th key column |
| Tables.KeyProjectionOnTheWire | binary/v1/client-tuple-operations.go:128-144 | so it is after both tuples were framed and decoded |
| Tables.SameKeySameBytes | binary/v1/client-tuple-operations.go:128-144 | rows that agree on the key columns are deleted by identical key bytes |
| Tables.WriteBatchPayload | binary/v1/client-tuple-operations.go:67-99 | the write loop produces the specified payload |
| Tables.TupleWriteAll | binary/v1/client-tuple-operations.go:67-107 | no tuples, no call; otherwise exactly one call of the connection with all of them, and its status |
| Tables.Table.UpsertAll | binary/v1/client-tuple-operations.go:111-126 | all or nothing: the connection is as before if a row fails or there is none, otherwise one call with every row's tuple in order |
| Tables.Table.DeleteAll | binary/v1/client-tuple-operations.go:129-144 | the same, with the key columns in key order |
| Tables.BatchOnTheWire | binary/v1/client-tuple-operations.go:67-144 | the one frame a batch added parses back to operation, id, table, version and each row's tuple |
| Tables.BatchReports | binary/v1/client-tuple-operations.go:99-106 | a batch that was sent reports a success exactly when its one call succeeded, and otherwise that call's error |
| Tables.BatchAnswered | binary/v1/client-tuple-operations.go:99-106 | for every answer of the server: its own error exactly when the error flag is set and nothing is in the way, a success exactly without the flag, otherwise an error that is not the server's, that of the connection for a failed write or read |
| Tables.BatchGoesOut | binary/v1/client-tuple-operations.go:111-144 | all rows can be built, and their tuples go out in one request unless its write fails, or one cannot and nothing is sent; for no rows nothing is sent either |

## Left out

- Sockets, TLS, dialing, the handshake, finalizers and debug output: plumbing. Bytes enter and leave as sequences.
- The MessagePack library: taken as the integer, nil, string, binary and extension families of the MessagePack
  specification. Its lenient decodings (nil as 0 or as the empty string, floats as integers) are not modelled.
- Responses.ResponseOperation.ReadFrom: a nil where an integer or a text is due is an error in the model; the library
  decodes it as 0 or as the empty text.
- Elements.AppendBinaryTupleValue: conversions between floats and integers or decimals, text into dates, and floats,
  times, UUIDs and bytes into VARCHAR give `ConversionOutsideModel`, where the code converts them.
- Acceptance.AcceptedExactly: the same conversions count as refused, with that error of their own.
- Floating point: REAL and DOUBLE values are bit patterns, and whether a double has an exact float32 form is part of
  the value. Conversions between floats and integers or decimals are the error `ConversionOutsideModel`.
- Go interface conversions: every integer type converts as in the code. Text into dates, and formatting a float, time,
  UUID or byte array into VARCHAR, are `ConversionOutsideModel`. Nil `*big.Int` pointers and `*Decimal` or `*Uuid`
  pointers are not modelled.
- Calendars and zones: a time is its fields and its Unix second. `time.Date` normalises fields out of range; the model
  keeps the raw fields that `decodeDate` hands to it, which are the same for valid dates.
- Slices whose capacity exceeds their length: reading beyond a slice always panics in the model.
- DecimalText.PrintParse: `big.Rat.SetString` is modelled on plain decimal text only; exponents, fractions, base
  prefixes and underscores do not parse in the model. The printer never writes them.
- Tables.KeyOrderUnique: with duplicate key indexes the order of the key columns is left open, as `sort.Slice` does.
- SqlArguments.SqlArgumentEndToEnd: the client has no reader for its own triples, so the reader of rows stands in for
  the server; the widths of int and of lengths are those of 64-bit Go.
- SqlArguments.TripleFraming: a NULL holds no bytes, which is what `setNil` leaves; a decoded tuple written again could
  hold a NULL with bytes, and is not covered.
- Protocol.EveryCallGetsItsOwnResponse: no I/O failure, requests within an int32 length, and a server that reads whole
  requests off the stream in order, echoes their ids and does not answer what it cannot parse, so not a misframed
  heartbeat either. Reads fill the buffer by any amount, the two reads of a heartbeat and its increment are steps
  outside the lock, and an increment is a load and a store.
- SerialClient.StaleResponsesAreRejected: a failed write delivers nothing, waiting for bytes that never come counts as a
  failed read, the request id does not overflow int64, and a request with a wrong length, a heartbeat past 127 or an
  operation beyond int32, leaves the server deaf.
- `GetTableSchema`, table lookup and its `OP_TABLES_GET` fallback, `skipPackedValue`: parsing that would add easy
  members or depends on map order.
- SQL cursors and result-set paging, URL parsing, driver registration, error wrapping, partition awareness.
- The server's own semantics, such as overwriting on upsert.
