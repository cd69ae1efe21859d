# modbus_client register engine in Dafny

This project models the register access engine of `modbus_client`, a Modbus client
library, and proves properties of that model. The engine has these parts:

- **Read-range merging.** `merge_address_ranges` sorts the requested `(address, count)`
  ranges by address ascending, then count descending. It sweeps them with one open bucket
  and produces read buckets. The model is the method `AddressRanges.MergeAddressRanges`,
  proved equal to the function `Merged`. Lemmas then state coverage, the size bound, the
  no-holes rule, ascending start addresses, that the output is no longer than the input, and
  that merging the output again changes nothing.
- **Typed word codec.** The `get_type_converter` table maps each value type to its struct
  format, word order and conversion. Integer values are packed to and from 16-bit words in
  two's complement, with the word order reversed for the big-endian types (`WordCodec`).
  `get_bits` and `put_bits` are loops, modelled as the methods `BitFields.GetBits` and
  `BitFields.PutBits`.
- **Register variants.** Numeric, enum, bool and coil registers each read their value from
  a read session and turn a value to write into words (`Registers`).
- **Read session.** `ModbusReadSession.read_registers` runs against a transport that is
  modelled as an oracle. The session is the class `ReadSessions.ReadSession`. Its dictionary
  is filled by one loop per register kind. Those loops are proved equal to `Execute` of a
  `Plan`: the list of calls, in the order coils, discrete inputs, input registers, then
  holding registers.
- **Device layer.**
  - `create_modbus_register` and `create_modbus_coil`, with the zero/one-based address offset.
  - The `ModbusDevice` class with `read_register`, `read_registers`, `write_register`,
    `read_switch`, `switch_set` and `switch_toggle`. Each method returns its result and the
    transport calls it issued.
  - The device configuration and its lookups by name.
- **Definition parsers.**
  - Register definitions `name/address[/type[*scale][unit]],options`, with `key=value` options.
  - Bit ranges `lo:hi`.
  - Flag definitions `name/bit`.
  - The validation of a register's fields and `check`.
  - The RTU mode string `9600n1`.

## How the model is built

Python exceptions are values. A raising operation returns a
`Result<T, Exception>`, where `Exception` names the Python exception kind: `ValueError`,
`KeyError`, `AssertionError`, `TypeError`, `struct.error`, a pydantic validation error and
so on.

The transport is the function `Client(history, call)`. It gives the reply to `call` after
the calls in `history`: a list of words or bits, or a transport error. Every device
operation returns an `Exchange`, which holds the result and the calls sent, in order. The
reads and writes are the Modbus functions 0x01–0x06 and 0x10 of section 6 of the Modbus
Application Protocol Specification V1.1b3. Only which calls are sent, in what order, is
modelled; the framing is not.

A Python `float` is the real number it denotes. IEEE-754 float32 packing and the
three-decimal text of a float are the parameter `FloatModel`, which is never inspected.

The source's test file `modbus_client/address_range_test.py` targets an older copy of the
merge. Its expectation at line 46, one bucket of 11 words with a maximum of 10, contradicts
the size check at `src/modbus_client/registers/address_range.py:47`. The lemma
`AddressRangeExamples.ElevenWordsNeedTwoReads` proves what the modelled code gives instead:
two buckets.

## Model

| member | source | states |
|---|---|---|
| AddressRanges.InsertPermutes | src/modbus_client/registers/address_range.py:36 | one insertion step of the sort adds exactly the inserted range to the multiset |
| AddressRanges.InsertSorted | src/modbus_client/registers/address_range.py:36 | inserting a range into a list sorted by (address ascending, count descending) keeps it sorted |
| AddressRanges.SortRanges | src/modbus_client/registers/address_range.py:36 | the sorted input is ordered by address ascending, then count descending |
| AddressRanges.SortPermutes | src/modbus_client/registers/address_range.py:36 | sorting is a permutation: the multiset of ranges is unchanged |
| AddressRanges.SortedFixed | src/modbus_client/registers/address_range.py:36 | an already sorted list is left as it is |
| AddressRanges.SortUnique | src/modbus_client/registers/address_range.py:36 | the sort's result is the only sorted permutation of the input, so input order does not matter |
| AddressRanges.SortedEqual | src/modbus_client/registers/address_range.py:36 | two sorted lists with the same multiset are equal |
| AddressRanges.SortedMembers | src/modbus_client/registers/address_range.py:36-37 | sorting neither adds nor drops a range |
| AddressRanges.MergeAddressRanges | src/modbus_client/registers/address_range.py:31-56 | the loop with its open bucket `cur` and its list `buckets` returns exactly the specification `Merged` (the sweep over the sorted input) |
| AddressRanges.Absorb | src/modbus_client/registers/address_range.py:37-51 | one iteration: skip a contained range, open the first bucket, extend the bucket when the gap is at most 1 (or holes are allowed) and the size fits, otherwise close it and open a new one |
| AddressRanges.SweepByStep | src/modbus_client/registers/address_range.py:36-54 | the sweep from position i is the step at i followed by the sweep from i + 1 |
| AddressRanges.SweepAscending | src/modbus_client/registers/address_range.py:36-51 | on sorted input the buckets' start addresses are strictly ascending, and the first bucket starts at and contains the open bucket |
| AddressRanges.SweepCovers | src/modbus_client/registers/address_range.py:39-54 | every range swept, and the open bucket, lies inside some output bucket |
| AddressRanges.SweepBounded | src/modbus_client/registers/address_range.py:46-51 | every output bucket is within the maximum read size or is one of the input ranges left unextended |
| AddressRanges.SweepGapless | src/modbus_client/registers/address_range.py:45-47 | without holes every address of every bucket is requested by some input range |
| AddressRanges.SweepLength | src/modbus_client/registers/address_range.py:33-56 | the sweep emits at most one bucket per range, plus one for the open bucket |
| AddressRanges.MergeCovers | src/modbus_client/registers/address_range.py:39-54 | coverage: every input range lies entirely inside some bucket |
| AddressRanges.MergeBounded | src/modbus_client/registers/address_range.py:46-51 | size bound: a bucket longer than `max_read_size` is exactly one of the input ranges |
| AddressRanges.MergeAscending | src/modbus_client/registers/address_range.py:36-51 | bucket start addresses are strictly ascending; disjointness is not claimed |
| AddressRanges.MergeWithoutHoles | src/modbus_client/registers/address_range.py:45-47 | with `allow_holes=False` every address read belongs to some input range |
| AddressRanges.MergeShrinks | src/modbus_client/registers/address_range.py:33-56 | the output is no longer than the input, and it is empty exactly when the input is empty |
| AddressRanges.SweepChain | src/modbus_client/registers/address_range.py:39-51 | each bucket the sweep closes is followed by one that ends later and that the gap or size rule refuses to join to it |
| AddressRanges.SweepOfChain | src/modbus_client/registers/address_range.py:39-54 | sweeping such a chain of buckets gives the chain back unchanged |
| AddressRanges.MergeIdempotent | src/modbus_client/registers/address_range.py:31-56 | merging the merged buckets again with the same `allow_holes` and `max_read_size` gives the same buckets |
| AddressRangeExamples.OverlappingRangesJoin | modbus_client/address_range_test.py:23 | (0..1),(1..2) without holes give (0..2) |
| AddressRangeExamples.AdjacentRangesJoin | modbus_client/address_range_test.py:26 | (0..1),(2..3) without holes give (0..3) |
| AddressRangeExamples.GapSplits | modbus_client/address_range_test.py:29 | (0..1),(5..6) without holes stay two buckets |
| AddressRangeExamples.GapJoinedWithHoles | modbus_client/address_range_test.py:40 | (0..1),(5..6) with holes give (0..6) |
| AddressRangeExamples.InputOrderIrrelevant | modbus_client/address_range_test.py:43 | (10..11),(5..6) give (5..6),(10..11) |
| AddressRangeExamples.OverlapJoined | modbus_client/address_range_test.py:47 | (10..15),(7..12) with holes give (7..15) |
| AddressRangeExamples.MaxReadSizeSplits | modbus_client/address_range_test.py:51 | (0..1),(8..9),(15..16) with holes and at most 10 words give (0..9),(15..16) |
| AddressRangeExamples.LargeReadSizeJoins | modbus_client/address_range_test.py:53 | (0..1),(15..16) with holes and at most 100 words give (0..16) |
| AddressRangeExamples.ElevenWordsNeedTwoReads | src/modbus_client/registers/address_range.py:47 | (0..1),(0..5),(5..9),(10..10) with at most 10 words give (0..9),(10..10) |
| TypeConverters.ConverterEntry | src/modbus_client/registers/type_converters.py:14-27 | exactly the twelve numeric tags have a converter entry |
| TypeConverters.GetTypeConverter | src/modbus_client/registers/type_converters.py:30-34 | the table entry for a numeric tag, and `ValueError` exactly for `enum`, `bool` and `flags` |
| TypeConverters.ReverseBytesIffBigEndian | src/modbus_client/registers/type_converters.py:15-26 | `reverse_bytes` holds exactly for the tags whose name ends in `be` |
| TypeConverters.RoundIffInteger | src/modbus_client/registers/type_converters.py:15-26 | the integer tags convert with `round`; the `float*` tags convert with `float` |
| TypeConverters.SignedUnlessUnsigned | src/modbus_client/registers/type_converters.py:15-26 | the format letter is signed exactly when the tag name does not start with `u` |
| TypeConverters.WidthMatchesName | src/modbus_client/registers/type_converters.py:15-26 | `calcsize(format) // 2` words hold exactly the bit width the tag's name gives (16, 32 or 64) |
| RegisterTypes.FromName | src/modbus_client/device/registers/register_type.py:4-19 | `RegisterType(s)` gives the tag whose value is `s`, or `ValueError` when no tag has that value |
| RegisterTypes.FromNameOfName | src/modbus_client/device/registers/register_type.py:4-19 | every tag is found back from its own value |
| RegisterTypes.NamesDistinct | src/modbus_client/device/registers/register_type.py:4-19 | no two tags share a value |
| Numbers.RoundHalfEven | src/modbus_client/registers/type_converters.py:15-24 | `round` gives the nearest integer, and the even one on a tie |
| Numbers.RoundUnique | src/modbus_client/registers/type_converters.py:15-24 | the nearest integer with ties to even is unique |
| Numbers.RoundIntegral | src/modbus_client/registers/type_converters.py:15-24 | `round` of an integral value is that value |
| Numbers.Mul | src/modbus_client/registers/registers.py:130 | `raw * scale` denotes the product, and is an int exactly when both operands are ints |
| Numbers.TrueDiv | src/modbus_client/registers/registers.py:134 | `value / scale` is a float whose product with the scale is the value, or `ZeroDivisionError` exactly for a zero scale |
| WordCodec.ToWords | src/modbus_client/registers/registers.py:99-101 | splits a bit pattern into `count` 16-bit words, least significant first |
| WordCodec.FromWords | src/modbus_client/registers/registers.py:114-115 | joins words into a bit pattern below 2^(16·count) |
| WordCodec.FromToWords | src/modbus_client/registers/registers.py:99-115 | joining the words of a pattern gives the pattern back |
| WordCodec.ToFromWords | src/modbus_client/registers/registers.py:99-115 | splitting the pattern of words gives the words back |
| WordCodec.Reverse | src/modbus_client/registers/registers.py:102-103 | element i of the reversed words is element n−1−i of the input |
| WordCodec.ReverseReverse | src/modbus_client/registers/registers.py:102-113 | reversing twice is the identity, so decode undoes encode's word order |
| WordCodec.OrderOrder | src/modbus_client/registers/registers.py:102-113 | applying the `reverse_bytes` word order twice is the identity |
| WordCodec.PatternRoundTrip | src/modbus_client/registers/registers.py:99-115 | two's-complement packing of an in-range value unpacks to the same value |
| WordCodec.PatternOfValue | src/modbus_client/registers/registers.py:99-115 | every bit pattern unpacks to an in-range value that packs back to it |
| WordCodec.Convert | src/modbus_client/registers/registers.py:98 | `round` yields an int and leaves an int unchanged; `float` yields a float |
| WordCodec.PackValue | src/modbus_client/registers/registers.py:99 | `struct.pack` of an integer format succeeds exactly for an int within the format's range, and raises `struct.error` otherwise |
| WordCodec.Encode | src/modbus_client/registers/registers.py:98-105 | a successful encode gives `calcsize(format) // 2` words |
| WordCodec.Decode | src/modbus_client/registers/registers.py:107-117 | decoding an integer format gives an int within that format's range; the float format gives a float |
| WordCodec.DecodeEncode | src/modbus_client/registers/registers.py:98-117 | `decode(encode(x)) == x` for every in-range integer of every integer format |
| WordCodec.EncodeDecode | src/modbus_client/registers/registers.py:98-117 | encoding the decoded value of any words gives those words back |
| WordCodec.EncodeOutOfRange | src/modbus_client/registers/registers.py:99 | an integer outside the format's range raises `struct.error` |
| WordCodec.WordOrder32 | src/modbus_client/registers/registers.py:102-113 | for `uint32be` the lowest-addressed word is the most significant; for `uint32le` it is the least significant |
| BitFields.TestBit | src/modbus_client/registers/registers.py:19 | `(x >> k) & 1` is 0 or 1 |
| BitFields.SetBit | src/modbus_client/registers/registers.py:27-28 | clearing bit k and OR-ing in b sets bit k to b and leaves every other bit |
| BitFields.Extract | src/modbus_client/registers/registers.py:16-20 | the extracted value is below 2^len(bits) |
| BitFields.GetBits | src/modbus_client/registers/registers.py:16-20 | the loop gives a value below 2^len(bits) whose bit i is bit `bits[i]` of the word |
| BitFields.PutBits | src/modbus_client/registers/registers.py:23-30 | the loop leaves every unlisted bit of `existing_value` unchanged, and with distinct bits sets bit `bits[i]` to bit i of `value` |
| BitFields.ExtractBit | src/modbus_client/registers/registers.py:16-20 | bit i of the extracted value is bit `bits[i]` of the word, and 0 beyond the list |
| BitFields.ExtractOfBits | src/modbus_client/registers/registers.py:16-20 | a word whose listed bits spell v extracts to v mod 2^len(bits) |
| BitFields.SpliceOthers | src/modbus_client/registers/registers.py:23-30 | `put_bits` leaves every bit not listed unchanged |
| BitFields.SpliceListed | src/modbus_client/registers/registers.py:23-30 | with distinct bits, bit `bits[i]` of the result is bit i of the value |
| BitFields.SpliceExtract | src/modbus_client/registers/registers.py:16-30 | `put_bits(b, get_bits(w, b), w) == w` |
| BitFields.ExtractSplice | src/modbus_client/registers/registers.py:16-30 | `get_bits(put_bits(b, v, w), b) == v mod 2^len(b)` for distinct bits |
| BitFields.SpliceBounded | src/modbus_client/registers/registers.py:23-30 | splicing bits below n into a value below 2^n stays below 2^n |
| Registers.EnumValue.Format | src/modbus_client/registers/registers.py:39-43 | the text is the entry name, or `<unknown>` when there is none, followed by exactly ` (value)`: its prefix, its suffix and its length are all fixed |
| Registers.IndexBy | src/modbus_client/registers/registers.py:152-153 | the dictionary built from the entries has exactly the entries' keys, each mapped to an entry with that key |
| Registers.IndexByLastWins | src/modbus_client/registers/registers.py:152-153 | a key maps to the last entry that has it |
| Registers.NewRegister | src/modbus_client/registers/registers.py:47-58 | the count is `calcsize // 2` of the value type; it raises `ValueError` for a virtual type or for bits with a type other than `uint16` |
| Registers.NewNumeric | src/modbus_client/registers/registers.py:120-126 | a valid numeric register with its scale and unit, under the same error rule |
| Registers.NewEnum | src/modbus_client/registers/registers.py:146-153 | a valid enum register whose two dictionaries index the entries by value and by name |
| Registers.NewBool | src/modbus_client/registers/registers.py:184-186 | a one-word `uint16` register of the single bit, which always needs an existing reading |
| Registers.NewCoil | src/modbus_client/registers/registers.py:207-212 | the block of eight coils starting at `number // 8 * 8`, which contains `number` |
| Registers.Lookup | src/modbus_client/registers/registers.py:111 | the session's values at `address + i` in ascending order, or `KeyError` exactly when one is missing |
| Registers.PackWords | src/modbus_client/registers/registers.py:114 | packing the session's values as `H` succeeds exactly when each is a bit or a word in 0..65535, and raises `struct.error` otherwise |
| Registers.BaseValue | src/modbus_client/registers/registers.py:107-117 | the decoded value is an in-range int (a float for `f`); it raises `KeyError` when a word is missing |
| Registers.RawValue | src/modbus_client/registers/registers.py:80-86 | a number; with bits, an int below 2^len(bits) |
| Registers.EnumLookup | src/modbus_client/registers/registers.py:155-162 | the raw value is always kept; the name and display are those of the entry with that value, and absent when there is none |
| Registers.CoilState | src/modbus_client/registers/registers.py:217-220 | the boolean at key (kind, number); `KeyError` when it is missing, `AssertionError` when it is not a bool |
| Registers.GetValue | src/modbus_client/registers/registers.py:128-130 | a numeric or coil register reads a number and an enum register an enum value; a coil reads 1 or 0 from its state |
| Registers.Format | src/modbus_client/registers/registers.py:137-224 | succeeds exactly when the read does; a numeric register gives the decimal text of an int reading (the float model's three-decimal text of a float reading) followed by a space and the unit when there is one; an enum gives its text; a bool gives exactly `true` or `false` as it reads, and a coil exactly `ON` or `OFF` as its state is |
| Registers.BaseToWords | src/modbus_client/registers/registers.py:88-105 | a successful encode gives the format's word count; a bitfield write without an existing session or with a non-int value fails its assertion |
| Registers.ValueToWords | src/modbus_client/registers/registers.py:132-199 | the word count, and each variant's refusals: a string for a numeric register, a zero scale, a float or an unknown name for an enum, a non-int for a bool |
| Registers.DecodeU16 | src/modbus_client/registers/registers.py:98-117 | a `uint16` word decodes to itself and encodes back to itself |
| Registers.ReadU16 | src/modbus_client/registers/registers.py:107-117 | a `uint16` register reads the word stored at its address |
| Registers.LookupOne | src/modbus_client/registers/registers.py:111 | one stored word is looked up as itself |
| Registers.PackOne | src/modbus_client/registers/registers.py:114 | one word packs to itself |
| Registers.StoredHolds | src/modbus_client/registers/read_session.py:45-46 | storing a read reply makes the session hold its words at consecutive addresses |
| Registers.BaseValueOfHeld | src/modbus_client/registers/registers.py:107-117 | a register reads the decode of the words the session holds at its addresses |
| Registers.LookupHeld | src/modbus_client/registers/registers.py:111 | the held words are looked up in address order |
| Registers.NumericRoundTrip | src/modbus_client/registers/registers.py:128-135 | writing `k * scale` to an integer numeric register encodes k, and reading those words back gives `k * scale` |
| Registers.NumericWrite | src/modbus_client/registers/registers.py:132-135 | a value that is k times the scale is written as the encoding of k |
| Registers.EncodeRounded | src/modbus_client/registers/registers.py:98 | a `round` converter encodes an integral float like the int |
| Registers.NumericRead | src/modbus_client/registers/registers.py:128-129 | the words of an in-range k read back as the raw value k |
| Registers.NumericValue | src/modbus_client/registers/registers.py:128-130 | a numeric read is the raw value times the scale |
| Registers.NumericTextReadsBack | src/modbus_client/registers/registers.py:137-141 | with an int scale, an int register prints the decimal text of raw times scale plus the unit suffix, and `int()` of that number text gives the value back |
| Registers.WriteBitsU16 | src/modbus_client/registers/registers.py:92-96 | a bitfield write splices the value into the word read before, and the result is still a word |
| Registers.ReadBitsU16 | src/modbus_client/registers/registers.py:80-86 | a spliced word reads back as the value mod 2^len(bits) |
| Registers.BitfieldRoundTrip | src/modbus_client/registers/registers.py:80-96 | a bitfield write changes only the listed bits of the existing word, and reading it back gives the value mod 2^len(bits) |
| Registers.BoolRoundTrip | src/modbus_client/registers/registers.py:184-199 | writing x sets the register's bit to 1 or 0 and keeps the other bits; reading back gives `x != 0` |
| Registers.BoolRead | src/modbus_client/registers/registers.py:191-194 | a word whose bit was set to b reads `b != 0` |
| Registers.BoolValue | src/modbus_client/registers/registers.py:191-194 | a bool register reads `raw != 0` |
| Registers.EnumRoundTrip | src/modbus_client/registers/registers.py:152-176 | writing an entry's name writes its value, and reading that word back gives the entry's name, value and display |
| Registers.EnumTables | src/modbus_client/registers/registers.py:152-153 | an entry whose name and value are not repeated later is found by both |
| Registers.EnumWrite | src/modbus_client/registers/registers.py:164-172 | a known name is written as its entry's value |
| Registers.EnumRead | src/modbus_client/registers/registers.py:155-162 | a value in the table reads as its entry |
| ReadSessions.OfKind | src/modbus_client/registers/read_session.py:30-33 | the ranges of exactly the descriptors of one kind |
| ReadSessions.ReadSession.constructor | src/modbus_client/registers/read_session.py:42 | the session starts empty |
| ReadSessions.ReadSession.ReadBuckets | src/modbus_client/registers/read_session.py:43-61 | the loop over one kind's buckets leaves the dictionary, calls and failure that running those reads gives |
| ReadSessions.ReadSession.Store | src/modbus_client/registers/read_session.py:45-46 | the inner loop stores the i-th value at (kind, address + i) |
| ReadSessions.StoreReplySpec | src/modbus_client/registers/read_session.py:45-46 | after storing, the keys are the old ones plus (kind, address + i); those hold the reply and no other key changes |
| ReadSessions.RunFailed | src/modbus_client/registers/read_session.py:43-63 | after a transport exception nothing more is sent or stored |
| ReadSessions.RunConcat | src/modbus_client/registers/read_session.py:43-61 | running two lists of calls is running the first, then the second |
| ReadSessions.RunCalls | src/modbus_client/registers/read_session.py:43-61 | the calls sent are a prefix of the plan, and all of it when nothing fails |
| ReadSessions.RunFailsLast | src/modbus_client/registers/read_session.py:43-63 | a failed run stops at the call that raised |
| ReadSessions.RunNext | src/modbus_client/registers/read_session.py:43-61 | running k + 1 calls is one more step after running k |
| ReadSessions.RunSucceedsIff | src/modbus_client/registers/read_session.py:43-63 | a run succeeds exactly when every call in it is answered |
| ReadSessions.RunValues | src/modbus_client/registers/read_session.py:45-61 | every value in the dictionary was there before or comes from the reply of a read in the plan |
| ReadSessions.RunKeeps | src/modbus_client/registers/read_session.py:45-61 | no key is ever removed |
| ReadSessions.RunStoresReads | src/modbus_client/registers/read_session.py:43-61 | after a successful run every address of every read is in the dictionary |
| ReadSessions.ReadCallsMembers | src/modbus_client/registers/read_session.py:43-44 | one read per bucket, with the bucket's address and count |
| ReadSessions.PlanMembers | src/modbus_client/registers/read_session.py:30-61 | the plan reads exactly the buckets of each kind |
| ReadSessions.ReadCallsRanks | src/modbus_client/registers/read_session.py:43-61 | one kind's reads are all of that kind |
| ReadSessions.JoinOrdered | src/modbus_client/registers/read_session.py:43-61 | joining lists of reads over consecutive rank bands keeps the kinds in order |
| ReadSessions.PlanOrdered | src/modbus_client/registers/read_session.py:43-61 | the reads go coils, discrete inputs, input registers, holding registers |
| ReadSessions.PlanBounded | src/modbus_client/registers/read_session.py:35-40 | a coil or discrete-input read covers at most 1, a register read at most `max_read_size`, unless it is a single requested range |
| ReadSessions.SessionCalls | src/modbus_client/registers/read_session.py:42-63 | the session sends a prefix of its plan, and all of it when it succeeds |
| ReadSessions.SessionFailsLast | src/modbus_client/registers/read_session.py:42-63 | a failed session's last call is the one that raised |
| ReadSessions.SessionSucceedsIff | src/modbus_client/registers/read_session.py:42-63 | the session succeeds exactly when every read is answered |
| ReadSessions.SessionSound | src/modbus_client/registers/read_session.py:42-63 | every value in the session comes from the reply of one of its reads |
| ReadSessions.SessionComplete | src/modbus_client/registers/read_session.py:30-63 | after a successful session every address of every requested range is in the dictionary |
| EnumDefinitions.EnumDefinition.GetDisplay | src/modbus_client/device/registers/enum_definition.py:13-17 | the name when there is no display; otherwise the display, a space, then the name in parentheses, with the length fixed; an identifier name is read back from either form |
| EnumDefinitions.NewEnumDefinition | src/modbus_client/device/registers/enum_definition.py:8-11 | accepted exactly when the name matches `^[a-zA-Z][a-zA-Z0-9_]*$`; the display defaults to none |
| FlagDefinitions.FlagDefinition.GetDisplay | src/modbus_client/device/registers/flag_definition.py:14-18 | the name when there is no display; otherwise the display, a space, then the name in parentheses, with the length fixed; an identifier name is read back from either form |
| FlagDefinitions.NewFlagDefinition | src/modbus_client/device/registers/flag_definition.py:9-12 | accepted exactly when the name is an identifier |
| FlagDefinitions.MatchFlagDef | src/modbus_client/device/registers/flag_definition.py:34 | the name group is a non-empty run of name characters followed by `/`, and the bit group is digits when present |
| FlagDefinitions.ParseFlagDefAsWritten | src/modbus_client/device/registers/flag_definition.py:33-40 | `ValueError` exactly when the pattern does not match; other failures are the attribute error or the name validation |
| FlagDefinitions.ParseFlagDef | src/modbus_client/device/registers/flag_definition.py:33-40 | as written except that a missing bit is a `ValueError`; a result has an identifier name and a non-negative bit |
| FlagDefinitions.MissingBit | src/modbus_client/device/registers/flag_definition.py:34-38 | `name/` fails with an attribute error as written, and with `ValueError` once corrected |
| FlagDefinitions.MatchFlagText | src/modbus_client/device/registers/flag_definition.py:34 | `name/ digits` matches with those groups |
| FlagDefinitions.ParseFlagDefText | src/modbus_client/device/registers/flag_definition.py:33-38 | `" name " + "/" + spaces + bit` gives the stripped name and the bit |
| FlagDefinitions.ValidateFlag | src/modbus_client/device/registers/flag_definition.py:20-30 | a string goes through `parse_flag_def` as written: its `ValueError` becomes a validation error, while the `AttributeError` of a text without a bit escapes; fields are validated directly |
| FlagDefinitions.ValidateFlagWithoutBit | src/modbus_client/device/registers/flag_definition.py:22-24 | `"name/"` escapes validation with `AttributeError`, where `"name/1"` validates to the flag with bit 1 |
| Labels.DisplayText | src/modbus_client/device/registers/flag_definition.py:14-18 | the bare name without a display; with one, the display, then ` (`, then the name, then `)`, each at its fixed position, and nothing else; an identifier name is recoverable from either form |
| Labels.NameShownOfDisplay | src/modbus_client/device/registers/enum_definition.py:13-17 | the name is read back from either form of the display text |
| BitArrays.Range | src/modbus_client/registers/bitarray.py:19 | `range(lo, hi + 1)`: hi − lo + 1 ascending consecutive numbers from lo |
| BitArrays.MatchRange | src/modbus_client/registers/bitarray.py:12 | a match is a prefix `digits:digits` |
| BitArrays.ParseBitArray | src/modbus_client/registers/bitarray.py:11-19 | `ValueError` exactly when the prefix does not match; otherwise a non-empty ascending run of consecutive bits |
| BitArrays.MatchBounds | src/modbus_client/registers/bitarray.py:12 | trailing text after `digits:digits` is ignored |
| BitArrays.ParseBounds | src/modbus_client/registers/bitarray.py:12-19 | `"a:b"` gives `[min..max]` inclusive |
| BitArrays.ParseSymmetric | src/modbus_client/registers/bitarray.py:19 | `"5:2"` and `"2:5"` give the same bits |
| BitArrays.ParseDecimalBounds | src/modbus_client/registers/bitarray.py:11-19 | the text `lo:hi` gives lo..hi |
| BitArrays.ParseNeedsDigit | src/modbus_client/registers/bitarray.py:12-14 | a text not starting with a digit raises `ValueError` |
| DeviceConfigs.NewDeviceSwitch | src/modbus_client/device/registers/device_register.py:124-132 | a switch type other than `coil` is refused |
| DeviceConfigs.FirstNamed | src/modbus_client/device/device_config.py:21-25 | the search loop stops at the first element with the name, or runs past the end when none has it |
| DeviceConfigs.FirstNamedUnique | src/modbus_client/device/device_config.py:21-25 | the position of the first match is unique |
| DeviceConfigs.DeviceConfig.FindRegister | src/modbus_client/device/device_config.py:21-25 | a register found has the name and is one of `get_all_registers`; none is found exactly when no register has the name |
| DeviceConfigs.DeviceConfig.FindSwitch | src/modbus_client/device/device_config.py:27-31 | a switch found has the name; none is found exactly when no switch has it |
| DeviceConfigs.Defaults | src/modbus_client/device/device_config.py:13-19 | no switches, `force_multiple_write` and `allow_holes` off, `max_read_size` 100 |
| DeviceConfigs.FindRegisterFirst | src/modbus_client/device/device_config.py:21-24 | the first register with the name, in holding-then-input order, is the one returned |
| DeviceConfigs.HoldingShadowsInput | src/modbus_client/device/device_config.py:33-34 | a holding register shadows an input register of the same name |
| DeviceConfigs.FoundHasTable | src/modbus_client/device/device_config.py:33-34 | in a well-formed configuration a register found is a holding or an input register |
| DeviceConfigs.FindSwitchFirst | src/modbus_client/device/device_config.py:27-31 | the first switch with the name is the one returned |
| ArgumentParsers.ParseMode | cli/argument_parsers.py:8-13 | succeeds exactly when the text starts with one or more digits, a parity letter in either case and a stop bit `1` or `2`; a mode has parity N, E or O and 1 or 2 stop bits; every other text is `ArgumentTypeError` |
| ArgumentParsers.ParseModeText | cli/argument_parsers.py:9-11 | `digits + parity + stop + anything` gives (int(digits), upper-cased parity, stop) |
| ArgumentParsers.ParseMode9600N1 | cli/argument_parsers.py:8-11 | `"9600n1"` gives (9600, `N`, 1) |
| ArgumentParsers.ParityUpperCase | cli/argument_parsers.py:9-11 | the parity letter is matched in either case and returned upper-cased |
| ArgumentParsers.ParseModeNeedsDigit | cli/argument_parsers.py:9-13 | a text not starting with a digit is refused |
| Text.Strip | src/modbus_client/device/registers/device_register.py:77 | the stripped text neither starts nor ends with whitespace |
| Text.StripPadded | src/modbus_client/device/registers/device_register.py:77 | stripping removes exactly the surrounding whitespace |
| Text.Lower | src/modbus_client/device/registers/device_register.py:79 | each character is lowered |
| Text.Split | src/modbus_client/device/registers/device_register.py:67 | the pieces contain no separator and join back to the text |
| Text.SplitOnce | src/modbus_client/device/registers/device_register.py:55 | `split('=', 1)` gives one piece exactly when there is no `=`, otherwise the text before the first `=` and the rest |
| Text.ParseIntText | src/modbus_client/device/modbus_device.py:135 | `int()` reads back the decimal text of every integer |
| Text.ParseFloatDigits | src/modbus_client/device/registers/device_register.py:80 | `float()` of a digit string is its value |
| RegisterDefinitions.OptionKey | src/modbus_client/device/registers/device_register.py:55 | the key is the text before the first `=` |
| RegisterDefinitions.OptionValue | src/modbus_client/device/registers/device_register.py:55-59 | a bare key gives True; `key=value` gives the text after the first `=` |
| RegisterDefinitions.Options | src/modbus_client/device/registers/device_register.py:51-63 | the options' keys are exactly the keys of the option strings |
| RegisterDefinitions.ParseOptionsStr | src/modbus_client/device/registers/device_register.py:51-63 | the loop filling the dictionary gives `Options` |
| RegisterDefinitions.OptionsLastWins | src/modbus_client/device/registers/device_register.py:54-59 | a later duplicate key overwrites an earlier one |
| RegisterDefinitions.MatchAddress | src/modbus_client/device/registers/device_register.py:71 | the address text is non-empty and the whitespace after it is consumed |
| RegisterDefinitions.IntBase0 | src/modbus_client/device/registers/device_register.py:78 | `int(s, 0)` gives a non-negative value or `ValueError` |
| RegisterDefinitions.MatchUnit | src/modbus_client/device/registers/device_register.py:74 | the unit is non-empty and has no newline |
| RegisterDefinitions.MatchTypedTail | src/modbus_client/device/registers/device_register.py:74 | the type part has no `*` or `[`, the scale is digits and dots, and a bare type matches with no scale or unit |
| RegisterDefinitions.MatchPlainTail | src/modbus_client/device/registers/device_register.py:85 | `(.+)$` takes the whole rest, less a final newline |
| RegisterDefinitions.MatchHead | src/modbus_client/device/registers/device_register.py:71-94 | the common head `name/address` has a non-empty address |
| RegisterDefinitions.ScaleField | src/modbus_client/device/registers/device_register.py:80 | the scale is `float(text)`, and 1 when absent |
| RegisterDefinitions.WithOptions | src/modbus_client/device/registers/device_register.py:76-82 | the options join the fields, or raise `TypeError` exactly when a key is repeated |
| RegisterDefinitions.TypeField | src/modbus_client/device/registers/device_register.py:79 | the type is the tag named by the stripped, lower-cased text, or `ValueError` |
| RegisterDefinitions.ParseRegisterDef | src/modbus_client/device/registers/device_register.py:66-101 | a parsed definition always has a name and an address; errors are `ValueError` or `TypeError`; `None` for a text matching no form, as `NoSlashUnmatched`, `BadNameUnmatched` and `TrailingUnmatched` show |
| RegisterDefinitions.FieldsOf | src/modbus_client/device/registers/device_register.py:73-101 | the three forms are tried in order |
| RegisterDefinitions.TypedForm | src/modbus_client/device/registers/device_register.py:74-82 | the first form gives a name and an address |
| RegisterDefinitions.PlainForm | src/modbus_client/device/registers/device_register.py:85-91 | the second form gives a name and an address |
| RegisterDefinitions.BareForm | src/modbus_client/device/registers/device_register.py:94-99 | the third form gives a name and an address |
| RegisterDefinitions.IntBase0Decimal | src/modbus_client/device/registers/device_register.py:78 | a decimal address reads as its value |
| RegisterDefinitions.IntBase0Hex | src/modbus_client/device/registers/device_register.py:78 | `0x` hexadecimal reads as its value |
| RegisterDefinitions.LeadingZeroRefused | src/modbus_client/device/registers/device_register.py:78 | a decimal with a leading zero is a `ValueError` under base 0 |
| RegisterDefinitions.AddressOf | src/modbus_client/device/registers/device_register.py:71 | a decimal address followed by the end or by a character that is not a digit, whitespace or the `x` of `0x` is matched whole |
| RegisterDefinitions.HeadOf | src/modbus_client/device/registers/device_register.py:71-94 | `name/address` followed by the end or by a character that ends the address splits into name, address and rest |
| RegisterDefinitions.IdentifierStrips | src/modbus_client/device/registers/device_register.py:77 | an identifier is unchanged by stripping |
| RegisterDefinitions.NoOptions | src/modbus_client/device/registers/device_register.py:67-69 | a definition without a comma has no options |
| RegisterDefinitions.NoSlashUnmatched | src/modbus_client/device/registers/device_register.py:66-101 | a definition without `/` matches no form and gives `None`, whatever options follow |
| RegisterDefinitions.BadNameUnmatched | src/modbus_client/device/registers/device_register.py:73-101 | a character outside `[a-zA-Z0-9_ ]` before the first `/` gives `None` |
| RegisterDefinitions.TrailingUnmatched | src/modbus_client/device/registers/device_register.py:71-101 | `name/address` followed by a character that is neither whitespace nor `/` and does not continue the address (as in `a/3x`) gives `None` |
| RegisterDefinitions.ParseNameAddress | src/modbus_client/device/registers/device_register.py:94-99 | `name/address` gives just the name and the address |
| RegisterDefinitions.ParseNameAddressType | src/modbus_client/device/registers/device_register.py:74-82 | `name/address/type` matches the first form, with scale 1 and no unit |
| RegisterDefinitions.ParseTypedText | src/modbus_client/device/registers/device_register.py:74-82 | any text naming a tag, in any case and padding, gives that tag |
| RegisterDefinitions.TypedFormOf | src/modbus_client/device/registers/device_register.py:74-82 | the first form's fields from its groups: a float scale when present, else 1 |
| RegisterDefinitions.ScaleDigits | src/modbus_client/device/registers/device_register.py:80 | a digit scale becomes a float |
| RegisterDefinitions.ParseFullDefinition | src/modbus_client/device/registers/device_register.py:73-82 | `name/address/type*scale[unit]` gives all five fields |
| RegisterDefinitions.ParseFullText | src/modbus_client/device/registers/device_register.py:74-82 | the same for any text naming the tag |
| RegisterDefinitions.TypedTailOf | src/modbus_client/device/registers/device_register.py:74 | `type*scale[unit]` splits into its three groups |
| RegisterDefinitions.UnitOf | src/modbus_client/device/registers/device_register.py:74 | `[unit]` gives the unit |
| RegisterDefinitions.SecondFormRefused | src/modbus_client/device/registers/device_register.py:84-91 | the second form can only end in `ValueError`: a type it alone matches names no tag |
| RegisterDefinitions.PlainFormRefused | src/modbus_client/device/registers/device_register.py:85-91 | an unknown type in the second form is a `ValueError` |
| RegisterDefinitions.TypeFieldRefuses | src/modbus_client/device/registers/device_register.py:79 | a type text with `*` or `[` names no tag |
| RegisterDefinitions.RepeatedKey | src/modbus_client/device/registers/device_register.py:94-99 | an `address=` option repeats a keyword argument: `TypeError` |
| RegisterDefinitions.AddressRepeated | src/modbus_client/device/registers/device_register.py:94-99 | the bare form with an `address` option raises `TypeError` |
| RegisterDefinitions.OneOption | src/modbus_client/device/registers/device_register.py:51-99 | `name/address,option` gives the name, the address and the option |
| RegisterDefinitions.SingleOption | src/modbus_client/device/registers/device_register.py:51-63 | one option string gives one entry |
| RegisterDefinitions.BareOption | src/modbus_client/device/registers/device_register.py:94-99 | the bare form keeps a non-clashing option |
| RegisterDefinitions.ReadonlyOption | src/modbus_client/device/registers/device_register.py:55-57 | `readonly` is the key `readonly` set to True |
| RegisterDefinitions.BitsFlagOption | src/modbus_client/device/registers/device_register.py:55-57 | a bare `bits` is True |
| RegisterDefinitions.BitsOption | src/modbus_client/device/registers/device_register.py:55-59 | `bits=v` is the key `bits` with the text v |
| DeviceRegisters.CoerceInt | src/modbus_client/device/registers/device_register.py:22 | an int field accepts an int, a bool (as 0 or 1), a float without a fraction, or a numeral text; none, a type tag and the lists are refused |
| DeviceRegisters.CoerceBool | src/modbus_client/device/registers/device_register.py:23 | a bool field accepts a bool or the usual true and false words |
| DeviceRegisters.CoerceName | src/modbus_client/device/registers/device_register.py:21 | a name is accepted exactly when it is an identifier |
| DeviceRegisters.CoerceScale | src/modbus_client/device/registers/device_register.py:24 | the scale must be a strict int or float |
| DeviceRegisters.CoerceType | src/modbus_client/device/registers/device_register.py:25 | the type is a tag or a text naming one |
| DeviceRegisters.CoerceUnit | src/modbus_client/device/registers/device_register.py:26 | the unit is none or a text |
| DeviceRegisters.CoerceEnums | src/modbus_client/device/registers/device_register.py:28 | the enum field is none or a list of valid entries |
| DeviceRegisters.ValidateFlags | src/modbus_client/device/registers/device_register.py:29 | the flags list validates exactly when each flag does, element by element; it raises `AttributeError` exactly when some flag does, and a validation error otherwise |
| DeviceRegisters.CoerceFlags | src/modbus_client/device/registers/device_register.py:29 | the flags field is none or a list that validates, and passes the list's `AttributeError` through |
| DeviceRegisters.CoerceBits | src/modbus_client/device/registers/device_register.py:32-35 | the `bits` text goes through `BitArray.parse`; a non-text raises `TypeError` |
| DeviceRegisters.Check | src/modbus_client/device/registers/device_register.py:37-48 | accepted exactly when an `enum` register has its entries and a `flags` register has its flags and is read-only |
| DeviceRegisters.Validate | src/modbus_client/device/registers/device_register.py:20-48 | a register needs a name and an address and passes every field and `check`; a non-text `bits` is a `TypeError`; otherwise a flag's `AttributeError` escapes; every other refusal is a validation error |
| DeviceRegisters.FlagWithoutBitEscapes | src/modbus_client/device/registers/device_register.py:29 | a flags list holding `name/` makes the register raise `AttributeError` unless `bits` raised `TypeError` first |
| DeviceRegisters.Parse | src/modbus_client/device/registers/device_register.py:104-121 | an unmatched definition raises; a parsed one is validated as its class |
| DeviceRegisters.ValidateCoerced | src/modbus_client/device/registers/device_register.py:20-48 | arguments that coerce to a register validate to it exactly when it passes `check` |
| DeviceRegisters.ValidatedCoerces | src/modbus_client/device/registers/device_register.py:20-48 | a validated register's fields are the coercions of the arguments |
| DeviceRegisters.ConsecutiveRange | src/modbus_client/registers/bitarray.py:19 | consecutive bits are the range from the first to the last |
| DeviceRegisters.BitsTextParses | src/modbus_client/device/registers/device_register.py:32-35 | the text `lo:hi` of a consecutive run parses back to it |
| DeviceRegisters.FlagArgumentsValidate | src/modbus_client/device/registers/device_register.py:29 | flags given as fields validate to themselves |
| DeviceRegisters.ArgumentsPlain | src/modbus_client/device/registers/device_register.py:20-30 | the arguments of a register coerce to its plain fields |
| DeviceRegisters.ArgumentsBits | src/modbus_client/device/registers/device_register.py:27 | the arguments of a register coerce to its bits |
| DeviceRegisters.ArgumentsTables | src/modbus_client/device/registers/device_register.py:28-29 | the arguments of a register coerce to its enum and flags |
| DeviceRegisters.ValidateArguments | src/modbus_client/device/registers/device_register.py:20-48 | every valid register is rebuilt from its own arguments |
| DeviceRegisters.ParseBare | src/modbus_client/device/registers/device_register.py:94-99 | `name/address` gives a register with every other field at its default |
| DeviceRegisters.ValidateBare | src/modbus_client/device/registers/device_register.py:20-30 | a name and an address alone give the defaults |
| DeviceRegisters.ParseTyped | src/modbus_client/device/registers/device_register.py:74-82 | `name/address/type` gives the type, and is refused for `enum` and `flags`, which need their tables |
| DeviceRegisters.ParseFull | src/modbus_client/device/registers/device_register.py:73-82 | `name/address/type*scale[unit]` gives a float scale and the unit |
| DeviceRegisters.ValidateTyped | src/modbus_client/device/registers/device_register.py:37-48 | typed fields validate, except `enum` and `flags` without their tables |
| DeviceRegisters.ParseOneOption | src/modbus_client/device/registers/device_register.py:51-69 | an option is passed to validation as a keyword argument |
| DeviceRegisters.ParseReadonly | src/modbus_client/device/registers/device_register.py:51-63 | `,readonly` gives a read-only register |
| DeviceRegisters.ValidateReadonly | src/modbus_client/device/registers/device_register.py:23 | `readonly=True` gives a read-only register |
| DeviceRegisters.ParseBitsWithoutRange | src/modbus_client/device/registers/device_register.py:32-35 | a bare `,bits` reaches `BitArray.parse` as True: `TypeError` |
| DeviceRegisters.ParseBitsRange | src/modbus_client/device/registers/device_register.py:32-35 | `,bits=lo:hi` gives the bits lo..hi |
| DeviceRegisters.ValidateBits | src/modbus_client/device/registers/device_register.py:32-35 | the `bits` text is parsed |
| DeviceRegisters.OptionsAreTexts | src/modbus_client/device/registers/device_register.py:51-63 | every option value is True or a text |
| DeviceRegisters.FormsKeepOptions | src/modbus_client/device/registers/device_register.py:73-99 | the options reach the fields unchanged |
| DeviceRegisters.TypedKeeps | src/modbus_client/device/registers/device_register.py:74-82 | the first form keeps the options |
| DeviceRegisters.PlainKeeps | src/modbus_client/device/registers/device_register.py:85-91 | the second form keeps the options |
| DeviceRegisters.WithOptionsKeeps | src/modbus_client/device/registers/device_register.py:76-82 | an option key not among the fixed fields keeps its value |
| DeviceRegisters.BareKeeps | src/modbus_client/device/registers/device_register.py:94-99 | the third form keeps the options |
| DeviceRegisters.ParsedTables | src/modbus_client/device/registers/device_register.py:51-99 | an `enum` or `flags` field from a definition string is True or a text |
| DeviceRegisters.TextHasNoTables | src/modbus_client/device/registers/device_register.py:104-121 | a register from a definition string never has an enum table or flags, and is never of type `enum` or `flags` |
| DeviceRegisters.FieldsWithoutTables | src/modbus_client/device/registers/device_register.py:37-48 | without list-valued tables `check` refuses `enum` and `flags` |
| ModbusDevices.ZeroOffset | src/modbus_client/device/modbus_device.py:17-18 | the offset is 0 in zero mode and 1 otherwise |
| ModbusDevices.CreateModbusRegister | src/modbus_client/device/modbus_device.py:16-35 | the base class is refused; the table comes from the class and the address is offset; `enum` needs its entries and becomes `uint16`; other tags become numeric registers with the scale and unit; bits pass through |
| ModbusDevices.CreateModbusCoil | src/modbus_client/device/modbus_device.py:38-47 | a coil register named like the switch, numbered `number - offset`, whose block contains it |
| ModbusDevices.DeviceRegisterOf | src/modbus_client/device/modbus_device.py:79-95 | a given register is used as is; a name is looked up, and a missing name fails its assertion |
| ModbusDevices.SwitchOf | src/modbus_client/device/modbus_device.py:84-103 | a given switch is used as is; a name is looked up, and a missing name fails its assertion |
| ModbusDevices.ResolveRegister | src/modbus_client/device/modbus_device.py:89-95 | a resolved register is `create_modbus_register` of the device register found |
| ModbusDevices.ResolveSwitch | src/modbus_client/device/modbus_device.py:97-103 | a switch resolves exactly when it is found, to its coil |
| ModbusDevices.NamedRegisterHasTable | src/modbus_client/device/modbus_device.py:20-25 | in a well-formed configuration a register found by name is never refused as the base class |
| ModbusDevices.DictOf | src/modbus_client/device/modbus_device.py:127 | the comprehension succeeds exactly when every value does, with exactly the given keys |
| ModbusDevices.DictOfFirstError | src/modbus_client/device/modbus_device.py:127 | the error raised is the first value's error |
| ModbusDevices.DictOfLastWins | src/modbus_client/device/modbus_device.py:127 | of two registers with one name, the later one's value is kept |
| ModbusDevices.ResolveAll | src/modbus_client/device/modbus_device.py:119 | every reference resolves in order, or the first failure is raised |
| ModbusDevices.ReadingsByName | src/modbus_client/device/modbus_device.py:127 | the map from name to value; the first failing read is raised |
| ModbusDevices.ReadingsLastWins | src/modbus_client/device/modbus_device.py:127 | a name maps to the last register with that name |
| ModbusDevices.Truncate | src/modbus_client/device/modbus_device.py:135 | `int()` of a float truncates toward zero |
| ModbusDevices.CoerceWriteValueAsWritten | src/modbus_client/device/modbus_device.py:131-140 | an entry becomes its value; an int stays; a float is truncated |
| ModbusDevices.CoerceWriteValue | src/modbus_client/device/modbus_device.py:131-140 | an entry becomes its value and a number stays as it is; a string is coerced like the source does |
| ModbusDevices.IntegerTextIsInteger | src/modbus_client/device/modbus_device.py:134-135 | the text of an integer is written as that integer |
| ModbusDevices.AsWrittenKeepsOnlyIntegralFloats | src/modbus_client/device/modbus_device.py:135 | as written, a float survives the coercion exactly when it is integral |
| ModbusDevices.WithoutBitsNoSession | src/modbus_client/device/modbus_device.py:144-148 | a register without bits encodes the same with or without a session |
| ModbusDevices.ScaledU16Write | src/modbus_client/device/modbus_device.py:148 | a value k times the scale is written as k |
| ModbusDevices.TruncatedScaledWrite | src/modbus_client/device/modbus_device.py:131-148 | as written, 2.5 written to a `uint16` register of scale 0.1 becomes 20 |
| ModbusDevices.ScaledWriteOfFraction | src/modbus_client/device/modbus_device.py:131-148 | corrected, 2.5 is written as 25 |
| ModbusDevices.Acknowledged | src/modbus_client/device/modbus_device.py:151-153 | a write succeeds exactly when the transport answers, and its error propagates otherwise |
| ModbusDevices.SingleRequestPlan | src/modbus_client/device/modbus_device.py:109-113 | the session of one register is one read of its range |
| ModbusDevices.ReadRegisterOneRead | src/modbus_client/device/modbus_device.py:105-115 | `read_register` sends exactly one read of the register's range, and its error propagates |
| ModbusDevices.CreatedU16 | src/modbus_client/device/modbus_device.py:33-35 | a plain `uint16` device register becomes a one-word numeric register |
| ModbusDevices.OneWordValue | src/modbus_client/device/modbus_device.py:115 | a one-word numeric register reads the word times its scale |
| ModbusDevices.ReadU16Register | src/modbus_client/device/modbus_device.py:105-115 | reading a `uint16` register sends one read at the offset address and returns the word times the scale |
| ModbusDevices.ReadOneWord | src/modbus_client/device/modbus_device.py:105-115 | the same, for any resolved one-word numeric register |
| ModbusDevices.ReadOutcomeOk | src/modbus_client/device/modbus_device.py:105-115 | after a successful session the value is read from it |
| ModbusDevices.ReadRegistersOneSession | src/modbus_client/device/modbus_device.py:117-127 | `read_registers` sends the calls of one session over all registers, and all of them on success |
| ModbusDevices.ReadRegistersNames | src/modbus_client/device/modbus_device.py:117-127 | the result maps exactly the registers' names, including every name asked for |
| ModbusDevices.WriteAfterReadCalls | src/modbus_client/device/modbus_device.py:148-153 | after the pre-read at most one write is sent, and a successful write is at the register's address, multiple exactly when forced or longer than one word |
| ModbusDevices.PreReadCalls | src/modbus_client/device/modbus_device.py:144-146 | a pre-read is one read of the register exactly when it requires an existing reading, and nothing otherwise |
| ModbusDevices.WriteRegisterCalls | src/modbus_client/device/modbus_device.py:129-153 | the calls are the pre-read (when required) then the write; a successful write ends with it |
| ModbusDevices.WriteU16Register | src/modbus_client/device/modbus_device.py:150-153 | writing w to a `uint16` register sends one single-register write of w at the offset address |
| ModbusDevices.WriteU16RegisterForced | src/modbus_client/device/modbus_device.py:150-151 | with `force_multiple_write` the same write is a multiple-register write of [w] |
| ModbusDevices.OneWordWrite | src/modbus_client/device/modbus_device.py:150-153 | a one-word write is multiple exactly when forced |
| ModbusDevices.OneWordCall | src/modbus_client/device/modbus_device.py:150-153 | one word is sent single unless forced |
| ModbusDevices.WriteWithoutPreRead | src/modbus_client/device/modbus_device.py:142-153 | without a pre-read the only call is the write of the encoded words |
| ModbusDevices.ReadonlyNotEnforced | src/modbus_client/device/modbus_device.py:129-153 | a register marked read-only is written like any other |
| ModbusDevices.SwitchSetWritesNumber | src/modbus_client/device/modbus_device.py:162-166 | `switch_set` writes the coil at `number - offset`, not at the block address |
| ModbusDevices.SwitchSetCall | src/modbus_client/device/modbus_device.py:164-166 | the coil write uses the coil's own number |
| ModbusDevices.ReadSwitchBit | src/modbus_client/device/modbus_device.py:155-160 | `read_switch` reads the block of eight at `n // 8 * 8` and returns bit `n % 8` of it |
| ModbusDevices.ReadCoilBlock | src/modbus_client/device/modbus_device.py:155-160 | the same, for the resolved coil |
| ModbusDevices.ReadSwitchOk | src/modbus_client/device/modbus_device.py:155-160 | after a successful session the switch reads its coil's state |
| ModbusDevices.CoilBit | src/modbus_client/registers/registers.py:217-220 | the coil's key is found in the block read |
| ModbusDevices.ToggleWritesNegation | src/modbus_client/device/modbus_device.py:168-170 | `switch_toggle` reads, then writes the negation of what it read; a failed read sends nothing more |
| ModbusDevices.ModbusDevice.constructor | src/modbus_client/device/modbus_device.py:69-71 | the device keeps its configuration and unit |
| ModbusDevices.ModbusDevice.ReadRegister | src/modbus_client/device/modbus_device.py:105-115 | the method's result and calls are those of the specification `ReadRegisterOutcome` |
| ModbusDevices.ModbusDevice.ReadRegisters | src/modbus_client/device/modbus_device.py:117-127 | the method's result and calls are those of `ReadRegistersOutcome` |
| ModbusDevices.ModbusDevice.WriteRegister | src/modbus_client/device/modbus_device.py:129-153 | the method's result and calls are those of `WriteRegisterOutcome` |
| ModbusDevices.ModbusDevice.WriteWords | src/modbus_client/device/modbus_device.py:148-153 | the encode and write step matches its specification |
| ModbusDevices.ModbusDevice.ReadSwitch | src/modbus_client/device/modbus_device.py:155-160 | the method's result and calls are those of `ReadSwitchOutcome` |
| ModbusDevices.ModbusDevice.SwitchSet | src/modbus_client/device/modbus_device.py:162-166 | the method's result and calls are those of `SwitchSetOutcome` |
| ModbusDevices.ModbusDevice.SwitchToggle | src/modbus_client/device/modbus_device.py:168-170 | the method's result and calls are those of `SwitchToggleOutcome` |

## Left out

- YAML loading is file and text I/O: `load_device_config`, `load_device_config_from_yaml`, the device file finder and `ModbusDeviceFactory`. A configuration is a value of `DeviceConfig`.
- The `DeviceRegisters` list validators are not modelled; `DeviceRegisters.Parse` models the per-element parse they call.
- pydantic validation is modelled as one coercion per field. The lax-mode details of pydantic's `int`/`bool` parsing beyond numerals and the usual words are not modelled.
- src/modbus_client/registers/register_value_type.py is not part of this model. The numeric tags are taken to carry the same values as src/modbus_client/device/registers/register_type.py.
- The transport and async execution are not modelled: the transport is the `Client` oracle, `close()` is not modelled, and the pymodbus wrappers are out of scope.
- IEEE-754 float32 packing and unpacking are the `FloatModel` parameter. The codec's round-trip lemmas cover the integer formats only.
- `NumericRegister.format` of a float uses `:.3f`, which is the `FloatModel` parameter.
- `int()` of an infinite or NaN float: floats are modelled as reals, so these do not arise.
- Text.ParseFloat: reads finite decimal literals only. The words `inf`, `infinity` and `nan`, which Python's `float()` accepts in any case with a sign and padding, give no value, because a real cannot hold them. `ModbusDevices.TextValue` therefore keeps such a text as a string, and `Registers.ValueToWords` refuses it, where the source would write an infinite or NaN float to a `float32` register.
- `Registers.ValueToWords`: `value / scale` is exact real division. The float rounding of the quotient (0.3 / 0.1 is not exactly 3) is not modelled.
- `Registers.NewEnum`: requires a non-float value type. `create_modbus_register` always builds enum registers as `uint16`.
- `interval_parser` (cli/argument_parsers.py:16-24) is not modelled, because it rests on Python `float()` of arbitrary text.
- Unicode digits and spaces matched by `\d` and `\s` outside Latin-1 are not modelled; `\d` is ASCII digits.
- Unreachable branches are left out of the model:
  - the `bit is None` test of `check`, because `bit` is an int;
  - the third branch of `parse_options_str`, because `split('=', 1)` gives at most two pieces (`Text.SplitOnce`);
  - the `else` branches of `create_modbus_register` and `create_modbus_switch` for a reference that is neither a name nor a register.
- Flags and string register variants are not modelled: no implementation of them exists in the modelled code.
- `ModbusDevices.ModbusDevice.WriteRegister` uses the corrected coercion `CoerceWriteValue`. The coercion as written is kept as `CoerceWriteValueAsWritten` (see Findings).
- `get_device_config` and `get_unit` only return the constructor's arguments and are not modelled.

## Findings

| source | as written | input that shows it | evidently intended | confidence | as-written member | corrected member |
|---|---|---|---|---|---|---|
| src/modbus_client/device/registers/flag_definition.py:34-38 | the bit group is optional, and `.strip()` is then called on `None` | `"alarm/"` raises an attribute error, not the `ValueError` of an invalid definition; in a register's flags list that error escapes validation (`DeviceRegisters.FlagWithoutBitEscapes`) | `ValueError` for a definition without a bit | high, not executed | FlagDefinitions.MissingBit | FlagDefinitions.ParseFlagDef |
| src/modbus_client/device/modbus_device.py:134-135 | `int(value)` is tried first, and it accepts a float by truncating it | writing 2.5 to a `uint16` register of scale 0.1 writes 20, not 25 | a float is kept, so that it is divided by the scale | medium, not executed | ModbusDevices.TruncatedScaledWrite | ModbusDevices.ScaledWriteOfFraction |
