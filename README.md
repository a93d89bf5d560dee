# Bencode decoder: a Dafny model

This project models the decoder of bencode-decode, a Go package. It reads bencoded data: the format of BitTorrent metainfo files, section "bencoding" of BEP 3. The decoding happens in two layers.

- **The value decoder.** A `Decoder` holds an immutable byte buffer and a mutable cursor. `decode` looks at the byte under the cursor and hands off to `decodeString` (`<length>:<bytes>`), `decodeInteger` (`i<digits>e`), `decodeList` (`l…e`) or `decodeDict` (`d…e`). The `Decode` driver collects top-level values until the buffer is exhausted.
- **The projection.** `fillStruct` and `setReflectValue` write the decoded value tree into a Go destination through reflection. `parseTag` picks a struct field's wire name.

The model is organised as follows.

- **`BencodeValues`** (`values.dfy`):
  - the value tree (`Nothing | Int | Str | List | Dict`) and the errors of the source, one constructor per kind of error (see "## Left out");
  - an outcome type with a third case, `Diverges`, for the inputs on which the source never returns;
  - `strconv.Atoi` for a 64-bit int.
- **`BencodeGrammar`** (`grammar.dfy`): one pure function per decoding routine. Each returns the outcome together with the cursor the routine leaves behind.
- **`BencodeDecoder`** (`decoder.dfy`): the `Decoder` class, with the cursor as a mutable field and each routine written as a method with its loop. Every method is proved to return exactly what the matching grammar function gives, and to leave the cursor exactly where that function puts it.
- **`BencodeGrammarProperties`**, **`BencodeTokenProperties`** and **`BencodeCompositeProperties`**: the properties of the grammar functions:
  - round trips;
  - every error path, with the cursor it leaves;
  - the inputs that diverge;
  - last-write-wins for repeated keys;
  - the fact that every decoded value can be decoded again.
- **`BencodeProjection`** (`projection.dfy`) and **`BencodeProjectionProperties`**:
  - a destination's Go type is a `Shape`, and its current contents are a `Dest`;
  - `FillStruct` and `SetValue` return the new contents or an error;
  - the properties state the per-kind rules, which struct fields are written, and how slices and maps are built.
- **`BencodeWorkedExamples`**: lemmas proved on concrete byte strings for both layers, including the whole `Decoder.Decode` driver.

## Model

| member | source | states |
|---|---|---|
| BencodeValues.Atoi | bencode.go:89-92 | A number is accepted only if it fits the int64 range. A string is accepted only if it starts with a digit or a sign. |
| BencodeValues.ParseDigitsValue | bencode.go:129-132 | The digit reader accepts exactly the all-digit strings, and their value is the positional decimal value. |
| BencodeValues.AtoiDecimal | bencode.go:89-92 | The decimal spelling of every int from 0 to 2^63-1 is read back as that int. |
| BencodeValues.AtoiNegativeDecimal | bencode.go:129-132 | `-` followed by the decimal spelling of n is read back as -n, down to -2^63. |
| BencodeValues.AtoiRejectsNoDigits | bencode.go:129-132 | The empty string and a lone sign are refused. |
| BencodeValues.AtoiRejectsOverflow | bencode.go:129-132 | Any digit string whose value is above 2^63-1 is refused, leading zeros included. |
| BencodeValues.AtoiRejectsNegativeOverflow | bencode.go:129-132 | A `-` followed by any digit string whose value is above 2^63 is refused, leading zeros included. |
| BencodeValues.DigitsValueOfDecimal | bencode.go:89-92 | Reading back the decimal spelling of n gives n. |
| BencodeValues.DigitsValueLeadingZero | bencode.go:129-132 | A leading zero does not change the value of a digit run. |
| BencodeValues.SortedKeys | bencode.go:330 | The key order chosen for the map loop lists every key of the dictionary exactly once. |
| BencodeValues.SortedKeysAscending | bencode.go:330 | That order is strictly ascending in byte order. It is one of the orders Go's map range may produce. |
| BencodeDecoder.Decoder.constructor | bencode.go:36 | A decoder starts at cursor 0 on the given bytes, with the cursor invariant established. |
| BencodeDecoder.Decoder.NewDecoder | bencode.go:27-37 | An empty input is refused with the end-of-input error. Any other input gives a fresh decoder at cursor 0. |
| BencodeDecoder.Decoder.CurTokenIs | bencode.go:39-44 | Gives 0 at or past the end of the buffer, and otherwise the byte under the cursor. |
| BencodeDecoder.Decoder.Advance | bencode.go:46-50 | Moves forward by exactly one byte, saturating at the buffer length. The cursor invariant `0 <= curToken <= len(rawBytes)` is preserved. |
| BencodeDecoder.Decoder.DecodeString | bencode.go:71-102 | The length-reading loop returns the outcome and leaves the cursor exactly as `BencodeGrammar.ParseString` says, on every path (success and each of the four errors). |
| BencodeDecoder.Decoder.DecodeInteger | bencode.go:104-135 | Skipping the `i` and the optional `-`, then the digit loop, gives exactly `BencodeGrammar.ParseInteger`. |
| BencodeDecoder.Decoder.DecodeIntegerDigits | bencode.go:114-134 | The digit loop that collects `numStr` gives exactly `BencodeGrammar.ParseIntegerDigits`. |
| BencodeDecoder.Decoder.DecodeList | bencode.go:137-156 | The item loop gives exactly `BencodeGrammar.ParseListItems` from the byte after the `l`, including `Diverges` when an item makes no progress. |
| BencodeDecoder.Decoder.DecodeDict | bencode.go:158-184 | The key/value loop gives exactly `BencodeGrammar.ParseDictEntries` from the byte after the `d`. |
| BencodeDecoder.Decoder.DecodeValue | bencode.go:186-206 | The dispatch on the current byte gives exactly `BencodeGrammar.ParseValue`. |
| BencodeDecoder.Decoder.Decode | bencode.go:53-69 | The driver collects values as `BencodeGrammar.ParseAll` does. The projected value is the single value alone or the list of all of them, and the error of the first failing value is returned. |
| BencodeGrammar.DigitRunEnd | bencode.go:75-81 | The run ends inside the buffer, either at its end or at a byte that is not a digit. This is where both digit loops stop. |
| BencodeGrammar.ParseString | bencode.go:71-102 | The cursor stays within the buffer, and the outcome never diverges. |
| BencodeGrammar.ParseInteger | bencode.go:104-135 | A success moves the cursor and gives a value in the int64 range. |
| BencodeGrammar.ParseIntegerDigits | bencode.go:114-134 | The digit loop after the optional sign stays within the buffer, never diverges, and a success consumes at least the closing `e` and gives a value in the int64 range. |
| BencodeGrammar.ParseValue | bencode.go:186-206 | The outcome is `Nothing` exactly on a 0 byte, and then the cursor does not move. Every other success strictly advances the cursor. |
| BencodeGrammar.ParseListItems | bencode.go:137-156 | A successful list loop moves the cursor forward, and the byte just before where it stops is the closing `e`. |
| BencodeGrammar.ParseDictEntries | bencode.go:158-184 | A successful dictionary loop moves the cursor forward, never past the buffer. That it stops just past the closing `e` is BencodeCompositeProperties.DictEntriesClosed. |
| BencodeGrammar.ParseAll | bencode.go:56-62 | A successful run of the driver loop ends exactly at the end of the buffer. |
| BencodeGrammar.TopLevel | bencode.go:64-68 | The value handed to the projector: the single value when there is exactly one, and otherwise the list of all of them. Its meaning on decoded buffers is DecodedTopLevel and StreamLikeList. |
| BencodeGrammarProperties.RoundTrip | bencode.go:186-206 | Every value with int64 integers and byte strings no longer than 2^63-1 decodes from its encoding, wherever that encoding sits in the buffer. The cursor ends just past it. |
| BencodeGrammarProperties.StringRoundTrip | bencode.go:71-102 | `decimal(len s) ":" s` decodes to exactly s, and the cursor ends past the whole token. |
| BencodeGrammarProperties.IntegerRoundTrip | bencode.go:104-135 | `i<n>e`, with a `-` for negative n, decodes to n. |
| BencodeGrammarProperties.ListRoundTrip | bencode.go:137-156 | A list's encoding decodes to the same items in the same order. |
| BencodeGrammarProperties.DictRoundTrip | bencode.go:158-184 | A dictionary's encoding, with keys in ascending order, decodes to the same map. |
| BencodeGrammarProperties.DecodeStream | bencode.go:56-62 | Concatenated encodings decode to the ordered list of their values, ending at the end of the buffer. |
| BencodeGrammarProperties.ItemsSkip | bencode.go:142-148 | The list loop reads the remaining items of a list encoding and appends them to what it has already collected. |
| BencodeGrammarProperties.EntriesSkip | bencode.go:161-175 | The dictionary loop reads the remaining entries of an encoding and inserts them into what it has already collected. |
| BencodeGrammarProperties.InsertAllContents | bencode.go:174 | Inserting the entries of d one key at a time yields exactly d's entries on top of the accumulator. |
| BencodeTokenProperties.ParseStringShape | bencode.go:71-102 | A successful byte string is a digit run, then a colon, then exactly as many bytes as the run spells. The cursor ends after them. |
| BencodeTokenProperties.ParseStringLength | bencode.go:89-95 | A decoded byte string is never longer than 2^63-1. |
| BencodeTokenProperties.StringLengthCharInvalid | bencode.go:76-77 | A byte before the colon that is neither a digit nor the colon is an error, reported at that byte. |
| BencodeTokenProperties.StringUnterminated | bencode.go:83-84 | Digits running to the end of the buffer, with no colon, give the missing-colon error at the end. |
| BencodeTokenProperties.StringTooLong | bencode.go:94-95 | A declared length, written with any digits and leading zeros included, that is larger than the bytes left after the colon is refused. The cursor stays just past the colon. |
| BencodeTokenProperties.StringLengthInvalid | bencode.go:89-92 | A declared length beyond the int range, in any spelling with leading zeros or none, fails at Atoi. The cursor stays just past the colon. |
| BencodeTokenProperties.Wrap64 | bencode.go:94 | Go's 64-bit int addition wraps around: the result lies in the int64 range, differs from the exact sum by a multiple of 2^64, and equals the exact sum when that fits. |
| BencodeTokenProperties.LengthRefusedAsWritten | bencode.go:94 | The refusal test as Go computes it: a negative length, or `curToken + length` wrapped to int64 exceeding the buffer size. LengthCheckWraps shows what it lets through. |
| BencodeTokenProperties.LengthCheckWraps | bencode.go:94 | On a 64-bit platform, with the declared length 2^63-1, the check as written lets the length through even though the true sum exceeds the buffer size. |
| BencodeTokenProperties.LengthOverflowInput | bencode.go:94-98 | For the 20 bytes `9223372036854775807:`, the check as written refuses nothing, while the modelled decoder refuses the input with the length error. |
| BencodeTokenProperties.DecimalShorter | bencode.go:94 | The decimal spelling of n is shorter than n for n >= 10. LengthOverflowInput uses it to show that the 20-byte buffer is no larger than 2^63-1, as LengthCheckWraps requires. |
| BencodeTokenProperties.IntegerSign | bencode.go:105-112 | After the `i`, a `-` is taken as the sign and skipped. |
| BencodeTokenProperties.IntegerPrefix | bencode.go:105-121 | The digit loop stops exactly at the end of the digit run that follows the optional sign. |
| BencodeTokenProperties.ZerosValue | bencode.go:129-132 | Any number of leading zeros leaves a digit run's value unchanged. |
| BencodeTokenProperties.IntegerLeadingZeros | bencode.go:104-135 | `i`, an optional `-`, any number of zeros, the digits of n and `e` decode to n or -n. |
| BencodeTokenProperties.IntegerZeroPadded | bencode.go:104-135 | `i007e` decodes to 7. |
| BencodeTokenProperties.IntegerNegativeZero | bencode.go:104-135 | `i-0e` decodes to 0. |
| BencodeTokenProperties.IntegerNoDigits | bencode.go:129-132 | `ie` and `i-e` fail at Atoi, just past the `e`. |
| BencodeTokenProperties.IntegerBadChar | bencode.go:116-117 | A byte inside the token that is neither a digit nor `e` is an error, reported at that byte. |
| BencodeTokenProperties.IntegerMissingEnd | bencode.go:123-124 | The buffer ending before the `e` is an error, reported at the end. |
| BencodeTokenProperties.IntegerOverflow | bencode.go:129-132 | An integer token whose digits, leading zeros included, lie outside the int64 range fails at Atoi, just past the `e`. |
| BencodeTokenProperties.DigitRunDigits | bencode.go:75-81 | What the digit loop collected is all digits. |
| BencodeCompositeProperties.ListCutShort | bencode.go:150-151 | A list whose items run to the end of the buffer without an `e` is the unterminated-list error. |
| BencodeCompositeProperties.ListZeroDiverges | bencode.go:142-148 | A 0 byte where a list item should start makes the loop repeat forever (`Diverges`), at that byte. |
| BencodeCompositeProperties.DictCutShort | bencode.go:177-178 | A dictionary whose entries run to the end of the buffer without an `e` is the unterminated-dictionary error. |
| BencodeCompositeProperties.DictEntriesClosed | bencode.go:161-181 | A dictionary loop that succeeds has just read its closing `e`: the loop ends only on that byte and skips it. |
| BencodeCompositeProperties.KeyBadStart | bencode.go:162-163 | Where a key should start, a byte that is neither a digit nor `e` gives the key-must-be-a-string error. |
| BencodeCompositeProperties.KeyAtEnd | bencode.go:169-171 | A key that consumes the rest of the input makes the value's decode fail at the end of input. |
| BencodeCompositeProperties.DictZeroValue | bencode.go:169-174 | A 0 byte after a key decodes to nothing, without moving the cursor. The next round of the loop then reports that byte as a key that is not a string, so a dictionary never diverges on it. |
| BencodeCompositeProperties.DecodePairs | bencode.go:158-184 | A dictionary listing keys in any order, with repeats, decodes to the map built by assigning the pairs one after another. |
| BencodeCompositeProperties.AssignKeys | bencode.go:174 | After the assignments, the keys are those already present plus those of the pairs. Untouched keys keep their values. |
| BencodeCompositeProperties.AssignLast | bencode.go:174 | A key holds the value of its last occurrence. |
| BencodeCompositeProperties.DuplicateKeyLastWins | bencode.go:174 | `d<k><v1><k><v2>e` decodes to the dictionary holding only k, bound to v2. |
| BencodeCompositeProperties.StreamZeroDiverges | bencode.go:56-62 | A 0 byte at the top level, after any values, makes the driver loop repeat forever. |
| BencodeCompositeProperties.DecodedValue | bencode.go:186-206 | Every non-`Nothing` value decode returns has int64 integers and byte strings that fit an int length. So it has an encoding. |
| BencodeCompositeProperties.DecodedStream | bencode.go:56-62 | The same holds for every value of a successful driver run. |
| BencodeCompositeProperties.Redecode | bencode.go:53-62 | Whatever the driver decodes, it decodes again, value for value, from the canonical re-encoding. |
| BencodeCompositeProperties.DecodedTopLevel | bencode.go:53-68 | For a stream of encodings the driver hands the projector the value alone when there is exactly one, and otherwise the list of all of them. |
| BencodeCompositeProperties.StreamLikeList | bencode.go:64-68 | A stream of zero or several values and the single list holding them reach the projector as the same value: `i1ei2e` and `li1ei2ee` cannot be told apart. |
| BencodeProjection.Zero | bencode.go:331-336 | The zero value of a type is a value of that type. |
| BencodeProjection.FirstPart | bencode.go:257-258 | The first comma-separated part of a tag contains no comma and is a prefix of the tag, ending at its end or at a comma. |
| BencodeProjection.ParseTag | bencode.go:251-264 | The wire name is the field name when the tag is empty or starts with a comma. Otherwise it is the tag's non-empty prefix up to its first comma. |
| BencodeProjection.WireName | bencode.go:232 | The key a field is looked up under is either its own name or a non-empty, comma-free prefix of its tag. |
| BencodeProjection.Selected | bencode.go:228-240 | A field is written exactly when it is exported, its wire name is not `-`, and the dictionary has that key. StructRule and StructField prove that the field loop follows it. |
| BencodeProjection.BytesDest | bencode.go:318-319 | A byte string becomes a `[]byte` of the same length, holding each byte in order. |
| BencodeProjection.FillStruct | bencode.go:208-249 | The new contents are again a value of the destination type, and the outcome never diverges. |
| BencodeProjection.SetValue | bencode.go:266-373 | The new contents are again a value of the destination type, and the outcome never diverges. |
| BencodeProjection.SetElems | bencode.go:311-316 | A successful element loop yields exactly one element per remaining item, each of the element type. |
| BencodeProjection.SetEntries | bencode.go:330-341 | A successful entry loop yields a map whose keys and values all have the map's key and element types. Its meaning for every key order is SetEntriesDomain and SetEntriesValue. |
| BencodeProjection.FillFields | bencode.go:224-245 | A successful field loop keeps the number of fields and the type of every field. |
| BencodeProjectionProperties.TagName | bencode.go:251-264 | For `part` or `part,options`: the wire name is the part, or the field's name when the part is empty. |
| BencodeProjectionProperties.FirstPartOf | bencode.go:257-258 | The first part of a comma-free prefix followed by a comma is that prefix. |
| BencodeProjectionProperties.StructRule | bencode.go:224-245 | A dictionary fills a struct exactly when every selected field (exported, not tagged `-`, wire name present) accepts its entry. |
| BencodeProjectionProperties.StructField | bencode.go:228-242 | Unexported fields, fields tagged `-` and fields with absent keys keep their contents. Every selected field holds its entry projected onto its old contents. |
| BencodeProjectionProperties.FillFieldsAt | bencode.go:224-245 | After the field loop from i, field j is projected if it was selected at or after i, and is unchanged otherwise. |
| BencodeProjectionProperties.FillFieldsSucceeds | bencode.go:242-244 | The field loop succeeds when every selected field does. |
| BencodeProjectionProperties.FillFieldsFails | bencode.go:242-244 | A failing field loop returns the error of the first selected field that fails. |
| BencodeProjectionProperties.DictOnlyIntoStruct | bencode.go:216-220 | A dictionary that fillStruct receives for anything other than a pointer or a struct is an error, maps and `any` included. |
| BencodeProjectionProperties.NilPointerAllocated | bencode.go:209-213 | A nil pointer is allocated, and the value is projected onto the zero pointee. |
| BencodeProjectionProperties.TextRule | bencode.go:268-273 | Whatever string a destination holds, it accepts exactly the byte strings, and afterwards holds the new one verbatim. |
| BencodeProjectionProperties.SignedIntRule | bencode.go:275-286 | Whatever int it holds, a signed destination takes every integer, negative ones included, as it is. It also takes a byte string with a decimal int, with or without `-`. A digit string, leading zeros allowed, gives its value, and is refused when that value is above the range. |
| BencodeProjectionProperties.SignedIntDigits | bencode.go:278-283 | Whatever int it holds, a signed destination given a byte string of digits, leading zeros allowed, takes the value of the digits. When that value is above 2^63-1 it refuses the string as a number. |
| BencodeProjectionProperties.SignedIntRejectsText | bencode.go:278-283 | Whatever int it holds, a signed destination refuses as a number a byte string that does not end in a digit. |
| BencodeProjectionProperties.SignedIntMismatch | bencode.go:284-286 | Whatever int it holds, a signed destination refuses a list, a dictionary or nothing. |
| BencodeProjectionProperties.UnsignedRule | bencode.go:288-293 | Whatever it holds, an unsigned destination accepts exactly the non-negative integers, and afterwards holds the integer. |
| BencodeProjectionProperties.BooleanRule | bencode.go:295-300 | Whatever it holds, a bool destination accepts exactly the integers, and afterwards is true when the integer is not 0. |
| BencodeProjectionProperties.InterfaceRule | bencode.go:355-360 | `any` holds the decoded value as it is, and a missing value is an error. A non-empty interface accepts nothing. |
| BencodeProjectionProperties.SetElemsAt | bencode.go:311-316 | Element j of the new slice is item j projected from the zero element. |
| BencodeProjectionProperties.SetElemsSucceeds | bencode.go:312-316 | The element loop succeeds when every item fits. |
| BencodeProjectionProperties.SetElemsFails | bencode.go:312-316 | A failing element loop returns the error of the first item that fails. |
| BencodeProjectionProperties.SliceRule | bencode.go:309-317 | A list fills a slice exactly when every item fits. The new slice has exactly the list's length, holds the items in order, and ignores the old contents. |
| BencodeProjectionProperties.ByteSliceRule | bencode.go:318-319 | A byte string fills a `[]byte` verbatim. |
| BencodeProjectionProperties.ProjectedTail | bencode.go:330-341 | Some key of a non-empty key list projects to x exactly when the first key does or some later key does. |
| BencodeProjectionProperties.EntriesHeadFits | bencode.go:330-339 | The map loop gets past a key only if both its key and its value fit. |
| BencodeProjectionProperties.EntriesHead | bencode.go:330-341 | One round of the map loop adds the projected key and value and continues. |
| BencodeProjectionProperties.SetEntriesFits | bencode.go:330-339 | For any order of the keys, a successful map loop means every entry fits. |
| BencodeProjectionProperties.SetEntriesSucceeds | bencode.go:330-342 | For any order of the keys, the map loop succeeds when every entry fits. |
| BencodeProjectionProperties.SetEntriesDomain | bencode.go:326-342 | For any order, x is a key afterwards exactly when it was before or some key projects to it. Keys that no key projects to keep their values. |
| BencodeProjectionProperties.SetEntriesValue | bencode.go:330-341 | For any order, a key that some key projects to holds the projection of one such key's value. |
| BencodeProjectionProperties.MapRule | bencode.go:324-345 | A dictionary fills a map exactly when every entry fits. A nil map is allocated and holds exactly the projected keys. An existing map is merged into, not cleared. |
| BencodeProjectionProperties.MapLoop | bencode.go:330-341 | The entry loop over any enumeration of all the dictionary's keys succeeds exactly when every entry fits. Afterwards the keys are the old ones plus the projected ones, and an old key no entry projects to keeps its value. |
| BencodeProjectionProperties.MapEntry | bencode.go:330-341 | Every projected key of the filled map holds the projection of a dictionary entry's value. |
| BencodeWorkedExamples.ThreeIntsStream | bencode.go:56-62 | `i1ei2ei3e` decodes to the values 1, 2, 3 in order. |
| BencodeWorkedExamples.ThreeIntsSlice | bencode.go:309-317 | The list of them fills a `[]int` as `[1, 2, 3]`. |
| BencodeWorkedExamples.DecodeThreeInts | bencode.go:53-69 | `Decode` on `i1ei2ei3e` into a `[]int` gives `[1, 2, 3]`. |
| BencodeWorkedExamples.PersonParses | bencode.go:158-184 | `d3:agei30e4:name3:Joee` decodes to one dictionary with keys `age` and `name`. |
| BencodeWorkedExamples.PersonFills | bencode.go:224-245 | Filling a struct with fields Age (tag `age`), Name (tag `name,omitempty`) and an unexported field gives 30 and "Joe", and leaves the unexported field unchanged. |
| BencodeWorkedExamples.DecodePerson | bencode.go:53-69 | `Decode` projects that single top-level dictionary alone onto the struct. |
| BencodeWorkedExamples.TagExamples | bencode.go:228-264 | A field tagged `-` has the wire name `-` and is never written, even when the dictionary has a key `-`. A field tagged `,omitempty` is matched by its own name. |

## Left out

- `NewDecoder`: reading the source with `io.ReadAll` and closing it is I/O. The model takes the bytes already read. A read error is not modelled, and only the empty-input check is.
- Float destinations (bencode.go:302-307): floating-point conversion is not modelled, and `Shape` has no float kind.
- Reflection itself (`reflect.New`, `CanSet`, `Set`, `SetMapIndex`, `NumMethod`): a destination is a `Shape` (its Go type) together with a `Dest` (its current contents). `CanSet` is the `exported` flag of a field.
- BencodeProjectionProperties.SignedIntRule: does not model the silent narrowing of `SetInt` into int8/16/32 fields, because those widths are Go machine behaviour outside this file. All signed widths share one kind.
- BencodeProjectionProperties.UnsignedRule: does not model the narrowing of `SetUint` into uint8/16/32 fields, for the same reason.
- The `nestedDecoder` copy (bencode.go:349): `fillStruct` never reads its cursor, so the struct case calls the field loop directly.
- Go map iteration order (bencode.go:330): Go uses an unspecified order. Where the model has to fix one, it visits keys in ascending byte order. The map-loop lemmas (SetEntriesFits, SetEntriesSucceeds, SetEntriesDomain, SetEntriesValue) hold for every order.
- Partial writes on failure: on an error, the Go code may already have written some struct fields, the allocated pointer or map, or some map entries. A failing slice projection, by contrast, leaves the old slice untouched in Go, because the new slice is assigned only after the element loop (bencode.go:317). The model returns only the error and does not say what the destination holds afterwards, in either case.
- Error message texts: errors are grouped by kind, one constructor of `Error` each. `io.EOF` is one constructor, `EndOfInput`, returned by both `NewDecoder` (bencode.go:34) and `decode` (bencode.go:188). Each `fmt.Errorf` site is a constructor of its own, with two exceptions:
  - the seven "cannot set <kind> with value of type" errors (bencode.go:272, 285, 292, 299, 321, 344, 352) are one constructor, `TypeMismatch`;
  - the two causes at bencode.go:94-95, a negative length and one that exceeds the buffer, are one constructor, `LengthOutOfRange`, as they are in the source.
- Non-empty interfaces and unsupported kinds (bencode.go:355-369): each is a single error case.
- `NilValue` stands for the reflect panic raised when `Set` receives the value of a 0 byte (a nil `any`).
- A dictionary that arrives at `fillStruct` is refused unless the destination is a struct, so a top-level dictionary cannot fill a map or an `any`. Nested inside a list or a map, the same dictionary reaches `setReflectValue` and can.
- `Decode`'s argument: the model takes the pointee of the non-nil pointer passed to `Decode`. The nil-pointer and non-pointer cases, which panic or write nothing in Go, are not modelled.
- SetValue (Ptr case, bencode.go:362-366): a pointer's contents are a value, `DPtr(target)`. Pointer identity and aliasing are not modelled: an existing pointer is rewritten as a new value, and no other alias of that pointer is shown to see the write.
- SetEntries: map keys are compared as values. For a pointer key type such as `map[*int]V`, Go allocates a fresh key pointer for each entry (bencode.go:331-339), so the keys `1` and `01` give two entries. The model merges them into the one key `DPtr(DInt(1))`.
- A 64-bit platform is assumed: `int` is int64, which fixes the bounds of `strconv.Atoi`.
- Non-termination: the source never returns on a 0 byte at a list-item or top-level position. The model returns `Diverges` there and proves when it happens (ListZeroDiverges, StreamZeroDiverges).

## Findings

| source | as written | input that shows it | evidently intended | confidence | as-written member | corrected member |
|---|---|---|---|---|---|---|
| bencode.go:94 | `d.curToken+length > len(d.rawBytes)` is computed in 64-bit `int` and wraps around for a length near 2^63-1, so the check passes and line 98 slices out of range (a runtime panic) | the 20 bytes `9223372036854775807:` | a declared length larger than the remaining bytes is refused with the length error | not executed | BencodeTokenProperties.LengthOverflowInput | BencodeTokenProperties.StringTooLong |
