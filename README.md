# py_fp device adapter core, modelled in Dafny

py_fp is a Python binding for Opal Kelly FrontPanel FPGA boards. Its core is
in C++ and has four parts:

- `FPDev`: a device session around one `okCFrontPanel` handle. It handles
  open/close with rollback, wire-ins and wire-outs, registers, block pipes
  and device enumeration.
- The block-pipe padding shim inside `FPDev::writePipe` and `FPDev::readPipe`.
  It rounds a transfer up to whole blocks through a zero-filled temporary.
- The `str::` string utilities of strutils.h.
- The `Buffer<T>` vector wrapper of buffer.h.

The model has five modules:

| module | file | models |
|---|---|---|
| `Common` | common.dfy | fixed-width integers, the C++ narrowing casts, `Option`, and `Result` (a value or `std::out_of_range`) |
| `StrUtils` | strutils.dfy | strutils.h |
| `Buffers` | buffer.dfy | buffer.h, as a class over `seq<Byte>` |
| `BlockPipe` | blockpipe.dfy | the padding arithmetic of fpdev.cpp:244-281 |
| `FPDevice` | fpdev.dfy | fpdev.h and fpdev.cpp, with `FPDev` as a class |

How the vendor SDK is modelled:
- The SDK is an abstract gateway. Every SDK call a session makes is appended
  to the log field `calls`.
- Allocating and deleting the handle are logged as `Create` and `Destroy`.
- What each call returns is a parameter of the method that makes it, e.g.
  `openRc`, `sdkRc`, `sdkValue`, or `incoming` (the bytes a pipe read
  delivers).
- Only `NewHandle`, `DeleteHandle` and `Issue` append to the log. Their
  preconditions let the verifier check two things for every method:
  - no handle is allocated while one is held;
  - every other SDK call goes to a held handle.
- Loops in the source are loops in the model: `replace_all`, `split`,
  `split_delims`, `to_upper`/`to_lower`, `array_to_string`, both
  `to_hex_string` overloads, `listDevices` and `listDevicesInfo`.
- Each loop method is proved equal to a specification function. The
  properties are then proved as lemmas about that function.

Where the code and its documentation disagree, the model follows the code:
- "Not connected" means no handle, not `!isOpen()`. `CHECK_CONNECTED`
  (fpdev.cpp:32-36) tests only whether `mFp` is null, so a held handle whose
  device reports closed is not rejected with -105. The model keys the
  rejection on `held`.
- `~FPDev` is empty. Destroying a session does not close the device.
- `open` caches serial, device ID, firmware text and the USB 3 flag before
  configuring the FPGA. After a -103 or -104 failure those fields hold the
  new device's values.
- `open` only tests `firmwareFile` for null. An empty file name still calls
  `ConfigureFPGA`.
- `getDeviceID` and `setDeviceID` record "Device not connected", without the
  period that `CHECK_CONNECTED` uses.
- `split(str, delim, false, n)` with n > 1, that is without `skip_empty`,
  throws only when `str` has exactly n-2 separators. With fewer it returns a
  plain split (see Findings). With `skip_empty` the throw depends on which
  items are empty: `split(",a", ",", true, 2)` throws although `",a"` has one
  separator. With `skip_empty` the unsplit remainder may also be empty.
- `range` with a negative count takes the rest of the string:
  `range("abc", 0, -10) == "abc"` and `range(s, 3, 1) == s[3..]`.
- `strip` is `rstrip(lstrip(s))`: the erase on `str` happens before
  `find_last_not_of` reads it.

## Model

| member | source | states |
|---|---|---|
| StrUtils.Find | strutils.h:40 | `std::string::find` (also at strutils.h:116, 119 and 307): a found position is at or after `from` and the pattern fits before the end; `FindSpec` proves it is the leftmost occurrence |
| StrUtils.FindSpec | strutils.h:40 | `find` returns the leftmost occurrence at or after `from`, and npos exactly when there is none |
| StrUtils.FindAfterPrefix | strutils.h:119 | searching after a prefix finds what a search of the rest finds, shifted by the prefix length |
| StrUtils.FindFirstOf | strutils.h:344 | `find_first_of`: the first position holding one of the characters; none of them occurs before it |
| StrUtils.FindFirstNotOf | strutils.h:75 | `find_first_not_of`: the first position holding none of the characters; only those characters occur before it |
| StrUtils.FindLastNotOf | strutils.h:81 | `find_last_not_of`: the last such position; only strip characters follow it |
| StrUtils.Contains | strutils.h:37-41 | true iff the pattern occurs at some position |
| StrUtils.StartsWith | strutils.h:43-47 | true iff the pattern is a prefix; the string then contains it |
| StrUtils.EndsWith | strutils.h:49-53 | true iff the pattern is a suffix; the string then contains it |
| StrUtils.Substr | strutils.h:69 | throws iff the position is past the end; otherwise a prefix of the tail, the whole tail for a wrapped or overlong count, `min(count, rest)` characters otherwise |
| StrUtils.Range | strutils.h:59-70 | defines `range`: a negative `from` or `to` counts from the end, the sums are narrowed back to `int`, and the result is `substr(from, count)` or its exception |
| StrUtils.RangeWhole | strutils.h:55-70 | `range(s, 0, -1) == s` |
| StrUtils.RangeSuffix | strutils.h:59-70 | `range(s, from) == s[from..]` for 0 <= from <= size |
| StrUtils.RangeSlice | strutils.h:59-70 | `range(s, from, to) == s[from..to)` for 0 <= from <= to <= size |
| StrUtils.RangeNegativeFrom | strutils.h:61-62 | a negative `from` counts from the end |
| StrUtils.RangeNegativeTo | strutils.h:64-65 | a negative `to` counts from the end, inclusive |
| StrUtils.RangeOutOfRange | strutils.h:59-70 | a start beyond either end throws `out_of_range` |
| StrUtils.RangeReversedIsSuffix | strutils.h:66-69 | `to < from` wraps the count, giving the whole tail |
| StrUtils.LStrip | strutils.h:72-76 | a suffix of the input, empty or starting with a non-strip character; everything removed is a strip character |
| StrUtils.RStrip | strutils.h:78-82 | the symmetric prefix |
| StrUtils.LStripUnique | strutils.h:72-76 | the cut of `lstrip` is the only one with that property |
| StrUtils.RStripUnique | strutils.h:78-82 | the cut of `rstrip` is the only one with that property |
| StrUtils.Strip | strutils.h:84-89 | `strip` is no longer than its input and neither starts nor ends with a strip character |
| StrUtils.StripEitherOrder | strutils.h:84-89 | `rstrip(lstrip(s)) == lstrip(rstrip(s))` |
| StrUtils.StripIdempotent | strutils.h:84-89 | stripping twice is stripping once |
| StrUtils.Uppered | strutils.h:91-96 | same length, each character upper-cased (ASCII) |
| StrUtils.Lowered | strutils.h:98-103 | same length, each character lower-cased (ASCII) |
| StrUtils.ToUpper | strutils.h:91-96 | the in-place transform loop yields `Uppered(str)` |
| StrUtils.ToLower | strutils.h:98-103 | the in-place transform loop yields `Lowered(str)` |
| StrUtils.IEquals | strutils.h:105-108 | true iff the strings have equal length and agree character by character after lower-casing |
| StrUtils.IEqualsEquivalence | strutils.h:105-108 | `iequals` is reflexive, symmetric and transitive |
| StrUtils.IEqualsCaseFolded | strutils.h:91-108 | a string is `iequals` to its upper- and lower-cased forms |
| StrUtils.Replaced | strutils.h:110-121 | defines the replacement of every occurrence of a non-empty pattern, found left to right without overlap |
| StrUtils.ReplaceAllSpec | strutils.h:110-121 | defines what `replace_all` leaves in `str`: unchanged for an empty search, otherwise `Replaced` |
| StrUtils.ReplaceAll | strutils.h:110-121 | the in-place loop (which searches on after the inserted text) yields `ReplaceAllSpec`; an empty search leaves the string unchanged |
| StrUtils.ReplacedFirst | strutils.h:116-119 | replacement cuts at the leftmost occurrence, replaces it, and continues on the text after it |
| StrUtils.ReplacedSelf | strutils.h:110-121 | replacing a pattern by itself changes nothing |
| StrUtils.ReplacedLength | strutils.h:110-121 | the length changes by `|replace| - |search|` per non-overlapping occurrence |
| StrUtils.ReplacedIsSplitJoin | strutils.h:110-121 | `replace_all(s, p, r)` equals splitting at `p` and joining with `r` |
| StrUtils.ReplaceAllNoRescan | strutils.h:118-119 | inserted text is not searched again: `replace_all("a", "a", "aa") == "aa"` |
| StrUtils.RemoveNonAlnumChars | strutils.h:123-129 | only alphanumeric characters remain, and the result is no longer than the input |
| StrUtils.RemoveNonAlnumConcat | strutils.h:123-129 | the filter distributes over concatenation, so it keeps order |
| StrUtils.RemoveNonAlnumKeepsAlnum | strutils.h:123-129 | an all-alphanumeric text is unchanged |
| StrUtils.RemoveNonAlnumCounts | strutils.h:123-129 | each alphanumeric character occurs as often as in the input |
| StrUtils.DecimalString | strutils.h:131-136 | the integer `to_string`: a non-empty text without spaces, the decimal digits after a minus sign when negative |
| StrUtils.DecimalRoundTrip | strutils.h:131-136 | reading back the decimal text of an integer gives the integer |
| StrUtils.DecimalStrings | strutils.h:148-181 | element i of the result is the decimal text of element i |
| StrUtils.ArrayToString | strutils.h:148-181 | the loop yields the decimal texts of the first `size` elements joined by single spaces |
| StrUtils.ArrayToStringSplits | strutils.h:148-181 | splitting that output at spaces gives the decimal texts back |
| StrUtils.HexOf | strutils.h:227-234 | the hex text of `value` has the requested number of digits |
| StrUtils.ToHexString | strutils.h:227-234 | the loop over shifts `sizeof(T)*8-4, …, 0` yields `HexOf(value, 2*sizeof(T))` |
| StrUtils.HexRoundTrip | strutils.h:227-234 | reading the hex text back gives `value` modulo 16^digits |
| StrUtils.HexOfDigit | strutils.h:231-232 | digit m, counted from the most significant, is nibble `n-1-m` of the value |
| StrUtils.HexPairIsHexOf | strutils.h:242-243 | a byte's two digits are its two-digit hex text |
| StrUtils.HexBytes | strutils.h:236-246 | defines the hex text of a byte buffer: the two digits of each byte, in buffer order |
| StrUtils.BytesToHexString | strutils.h:236-246 | the loop yields `HexBytes` of the first `size` chars |
| StrUtils.HexBytesLength | strutils.h:236-246 | the buffer's hex text has length 2·size |
| StrUtils.HexBytesPair | strutils.h:242-243 | byte k is encoded at positions 2k (high nibble, arithmetic shift) and 2k+1 (low nibble) |
| StrUtils.SplitSpec | strutils.h:293-364 | defines what `split` (with `find`) and `split_delims` (with `find_first_of`) return or throw: `[str]` for `max_items = 1`, no items for an empty string, otherwise the rounds of the loop |
| StrUtils.Split | strutils.h:293-327 | the loop yields `SplitSpec` with `find`: the list of items, or the exception from `substr(npos)` |
| StrUtils.SplitDelims | strutils.h:329-364 | the loop yields `SplitSpec` with `find_first_of` |
| StrUtils.SplitJoin | strutils.h:293-327 | without skipping, joining the items with the delimiter gives back the string |
| StrUtils.SplitRestJoin | strutils.h:305-326 | the same for each remainder the loop resumes on |
| StrUtils.SplitCount | strutils.h:293-327 | without `skip_empty`, on a non-empty string with c separators and n ≠ 1: it throws iff n ≠ 0 and c = n-2; otherwise it returns n items when c ≥ n-1, else c+1 |
| StrUtils.SplitRestCount | strutils.h:305-326 | the same count for each remainder |
| StrUtils.TextAfterSeps | strutils.h:305-323 | defines the text after the k-th separator, where the loop resumes after k cuts |
| StrUtils.SplitLimited | strutils.h:293-364 | without `skip_empty`, with n ≥ 2 and at least n-1 separators: exactly n items, the first n-1 free of separators and the last the unsplit text after the (n-1)-th separator; with a delimiter string they join back to the text |
| StrUtils.SplitRestLimited | strutils.h:305-326 | the same for each remainder the loop resumes on, with a quota of items still to cut |
| StrUtils.SplitBounded | strutils.h:293-364 | with or without `skip_empty`, a successful split returns at most `max_items` items when `max_items > 0` |
| StrUtils.SplitRestBound | strutils.h:305-326 | the same bound for each remainder |
| StrUtils.SplitUnlimited | strutils.h:293-364 | with `max_items = 0` it never throws, no item contains a separator, and with `skip_empty` no item is empty |
| StrUtils.SplitRestUnlimited | strutils.h:305-326 | the same for each remainder |
| StrUtils.SplitOfJoin | strutils.h:293-327 | splitting a single-character join of separator-free items gives the items back |
| StrUtils.SplitOfJoinSpec | strutils.h:293-327 | the same round trip for the whole `split` |
| StrUtils.SplitThrowsAtLastItem | strutils.h:319-323 | as written: `split("a", ",", false, 2)`, `split("a,b", ",", false, 3)` and `split(",a", ",", true, 2)` throw |
| StrUtils.SplitIntended | strutils.h:319-323 | corrected: never more than `max_items` items, never throws, and equal to `split` wherever `split` returns |
| StrUtils.SplitRestIntendedProps | strutils.h:305-326 | the corrected remainder split is bounded and agrees with the original where it returns |
| StrUtils.SplitRestIntendedJoin | strutils.h:305-326 | the corrected split still joins back to the string |
| StrUtils.JoinSnoc | strutils.h:314-315 | appending an item appends the delimiter and the item |
| Buffers.Buffer.constructor | buffer.h:32-36 | `size` elements, all zero |
| Buffers.Buffer.Copy | buffer.h:38-41 | the copy has the same elements |
| Buffers.Buffer.Assign | buffer.h:46-50 | takes over the elements; self-assignment changes nothing |
| Buffers.Buffer.Equals | buffer.h:52-54 | true iff the sizes and all elements are equal |
| Buffers.Buffer.SetVal | buffer.h:56-58 | the size is kept and every element becomes `val` |
| Buffers.Buffer.Zero | buffer.h:60-62 | the size is kept and every element becomes 0 |
| Buffers.Buffer.Reinit | buffer.h:64-70 | at the same size the contents are untouched; otherwise `size` zero elements |
| Buffers.Buffer.ReinitWith | buffer.h:72-75 | `size` elements, each `val` |
| Buffers.Buffer.AssignData | buffer.h:77-79 | the elements become the first `size` elements of `data` |
| Buffers.Buffer.CopyIn | fpdev.cpp:252 | `memcpy` into the buffer: the first `size` elements are the source's and the rest is kept |
| Buffers.Buffer.Clear | buffer.h:81-83 | no elements |
| Buffers.Buffer.Get | buffer.h:91 | `get(i)` returns one of the buffer's elements; `Set` proves that after `set(i, val)` it returns `val` |
| Buffers.Buffer.Last | buffer.h:93 | `last()` is the element `get(size() - 1)` returns |
| Buffers.Buffer.Size | buffer.h:89 | the element count |
| Buffers.Buffer.ByteSize | buffer.h:90 | size times `sizeof(byte)` |
| Buffers.Buffer.Empty | buffer.h:94 | true iff there are no elements |
| Buffers.Buffer.Set | buffer.h:92 | only element i changes, and `get(i)` then returns `val` |
| Common.ToInt32 | fpdev.cpp:253-255 | the conversion to `int` (also the `int` sums of `range`, strutils.h:61-69): in [-2^31, 2^31), congruent to x modulo 2^32, and x itself when it fits |
| Common.ToU32 | fpdev.cpp:249-253 | the conversion to `u32` (also the `u32` results of fpdev.cpp:216-223): congruent to x modulo 2^32, and x itself when x is in [0, 2^32) |
| BlockPipe.CeilDiv | fpdev.cpp:249 | the least q with q·b ≥ a |
| BlockPipe.PaddedSize | fpdev.cpp:267-268 | defines the size of the padded temporary, `max(blockSize, ceil(size / blockSize) * blockSize)` in `size_t` |
| BlockPipe.TransferSize | fpdev.cpp:248-255 | defines the length handed to the SDK: `size` when aligned, the padded size otherwise |
| BlockPipe.PaddedSizeLeast | fpdev.cpp:249-250 | the padded size is the least multiple of the block size that is ≥ size and ≥ one block |
| BlockPipe.PaddedMaxRedundant | fpdev.cpp:250 | for an unaligned size the `max` with one block never matters, and the padding is less than one block |
| BlockPipe.TransferSizeSpec | fpdev.cpp:248-255 | the length handed to the SDK is a multiple of the block size, is `size` itself when aligned, and exceeds it by less than a block otherwise |
| BlockPipe.WriteSizeAsWritten | fpdev.cpp:249-250 | defines `writePipe`'s size as written: the padded size and the block size both narrowed to `u32` before the `max` |
| BlockPipe.WriteSizeNarrowingOverruns | fpdev.cpp:249-252 | as written: for size 2^32+1 and block size 1024 the `u32` write size is 1024, smaller than the bytes copied into the buffer |
| BlockPipe.WriteSizeHoldsData | fpdev.cpp:249-250 | corrected: the padded size always holds the data, and agrees with the narrowed one when it fits in `u32` |
| FPDevice.ErrorCodes | fpdev.h:28-33 | the six codes are -100 through -105 in order |
| FPDevice.ErrorCodesDistinct | fpdev.h:28-33 | they are pairwise distinct and below `Failed` |
| FPDevice.FirmwareText | fpdev.cpp:130 | defines the "Firmware %d.%d" text from the device's major and minor versions |
| FPDevice.PaddedPayload | fpdev.cpp:251-252 | what an unaligned write hands to the SDK: exactly `length` bytes |
| FPDevice.PaddedPayloadSpec | fpdev.cpp:251-252 | the padded temporary starts with the caller's bytes and is zero after them |
| FPDevice.FPDev.constructor | fpdev.cpp:40-46 | no handle, no USB 3 flag, no closing on failure, empty last error, serial, device ID and firmware text |
| FPDevice.FPDev.NewHandle | fpdev.cpp:120 | allocates the handle, which none may hold before |
| FPDevice.FPDev.DeleteHandle | fpdev.cpp:122-123 | deletes the held handle and nulls it |
| FPDevice.FPDev.Issue | fpdev.cpp:121 | an SDK call on the held handle is logged and changes nothing else |
| FPDevice.FPDev.Open | fpdev.cpp:113-156 | -101 with its message and nothing else changed when a handle is held; -102, -103 or -104 with the handle released, the matching message and the exact SDK calls; otherwise 0 with the handle held and the metadata cached; returns 0 iff it acquired a handle |
| FPDevice.FPDev.SetUp | fpdev.cpp:128-155 | after a successful open-by-serial: the metadata is cached from the device info, then the checks run |
| FPDevice.FPDev.Check | fpdev.cpp:137-155 | `ConfigureFPGA` only when a file is given; the rollback paths for -103 and -104 |
| FPDevice.FPDev.Close | fpdev.cpp:164-172 | always 0 and no handle afterwards; on a closed session nothing changes, so closing twice equals closing once |
| FPDevice.FPDev.IsOpen | fpdev.cpp:174-179 | false without a handle, otherwise the SDK's answer |
| FPDevice.FPDev.ResetDevice | fpdev.cpp:181-185 | -105 and "Device not connected." with nothing else changed when disconnected; otherwise the `ResetFPGA` result |
| FPDevice.FPDev.GetDeviceID | fpdev.cpp:187-194 | "" and the message without a period when disconnected; otherwise the SDK's device ID |
| FPDevice.FPDev.SetDeviceID | fpdev.cpp:196-201 | on a held handle, one `SetDeviceID` call |
| FPDevice.FPDev.SetTimeout | fpdev.cpp:158-162 | on a held handle, one `SetTimeout` call, returning 0 |
| FPDevice.FPDev.SetCloseOnFailure | fpdev.h:60 | only the failure-policy flag changes |
| FPDevice.FPDev.SetWireIn | fpdev.cpp:203-214 | -105 when disconnected; `Failed` with the policy on closes the session and skips `UpdateWireIns`; otherwise `UpdateWireIns` follows iff `sendNow` (default true) |
| FPDevice.FPDev.GetWireOut | fpdev.cpp:216-223 | -105 when disconnected; otherwise the SDK value narrowed to `u32`, in [0, 2^32), after `UpdateWireOuts` iff `refreshWireOuts` (default true) |
| FPDevice.FPDev.WriteRegister | fpdev.cpp:225-232 | -105 when disconnected; otherwise the SDK code, closing on `Failed` when the policy is on |
| FPDevice.FPDev.ReadRegister | fpdev.cpp:234-242 | -105 when disconnected; otherwise the SDK code when non-zero, else the register value in [0, 2^32); closing on `Failed` when the policy is on |
| FPDevice.FPDev.WritePipe | fpdev.cpp:244-260 | -105 when disconnected; otherwise one block-pipe write of `TransferSize` bytes: the data, zero-padded when unaligned; the result is the SDK's narrowed to `int`; closing on `Failed` when the policy is on |
| FPDevice.FPDev.ReadPipe | fpdev.cpp:262-281 | -105 with `data` untouched when disconnected; aligned: the SDK writes `data` directly; unaligned: `data` gets the first `size` bytes and the result is `size` only when the SDK returned the padded size, otherwise `data` is untouched and the SDK's result is returned |
| FPDevice.FPDev.Serial | fpdev.h:72 | the cached serial |
| FPDevice.FPDev.DeviceID | fpdev.h:73 | the cached device ID |
| FPDevice.FPDev.FpFirmwareVersion | fpdev.h:74 | the cached firmware text |
| FPDevice.FPDev.IsUSB3Speed | fpdev.h:75 | the cached USB 3 flag |
| FPDevice.FPDev.LastError | fpdev.h:76 | the last error message |
| FPDevice.ListDevices | fpdev.cpp:64-73 | the SDK's serials in list order |
| FPDevice.DevicesInfo | fpdev.cpp:75-96 | defines the listing: one entry (serial and device ID) per device whose `OpenBySerial` succeeds, in list order |
| FPDevice.ListDevicesInfo | fpdev.cpp:75-96 | the loop with `continue` yields `DevicesInfo` of the SDK's answers |
| FPDevice.DevicesInfoConcat | fpdev.cpp:80-93 | the listing distributes over concatenation, so entries keep SDK index order |
| FPDevice.DevicesInfoLength | fpdev.cpp:80-93 | at most one entry per device |
| FPDevice.DevicesInfoMembers | fpdev.cpp:84-92 | an entry is listed iff it comes from a device whose open succeeded |
| FPDevice.DeviceIDOf | fpdev.cpp:98-111 | "" when the device cannot be opened, else its device ID |
| FPDevice.DeviceIDOfListed | fpdev.cpp:75-111 | for a device that opens, `deviceID(serial)` is the ID that `listDevicesInfo` lists for it |

## Left out

- The Opal Kelly SDK (`okCFrontPanel`) is a foreign library. Each call's result is a method parameter. What the SDK does with the device is not modelled.
- `loadFrontPanelLibrary` and `libraryDate`: dynamic library loading and the library's build date text, both outside the model.
- The Python binding, the file logger and the build script are not part of this model.
- `str::format`, `formatv`, `to_num`, `to_int`, `to_double`, the `double` overload of `to_string`, and `hex_string_to_value`: `printf`-style formatting, stream parsing and floating point. The one `format` call in the core ("Firmware %d.%d") is modelled with the integer `to_string`.
- `array_to_string` with floating-point elements, and the generic template with `signed char` (`int8_t`) elements, which a stream writes as characters rather than numbers: only elements written as decimal numbers are modelled (the integer types wider than a character, and the `char` and `unsigned char` overloads).
- Locale: `::toupper`, `::tolower` and `::isalnum` are taken in the ASCII "C" locale.
- The `ceil(size / (double)blockSize)` of the pipe code is integer ceiling division, which agrees below 2^53.
- StrUtils.Split: requires a non-empty delimiter. With an empty one `find("", start)` returns `start`, so `start = end + 0` never advances. With `max_items = 0` the loop then pushes empty items until allocation fails, and with `skip_empty` it runs forever. With `max_items = n ≥ 2` it returns n-1 empty items followed by `str`. None of this is modelled.
- Buffers.Buffer: modelled with the element type `byte` only, the one instantiation the core uses. `data()` and `operator T*` expose the storage. They are modelled by `CopyIn` and by direct reads of the elements.
- Buffers.Buffer.Get and Buffers.Buffer.Last: plain element reads. Their index preconditions exclude an index past the end, and `last()` on an empty buffer, which are undefined behaviour.
- FPDevice.FPDev.SetDeviceID and FPDevice.FPDev.SetTimeout: require a held handle. Without one the source dereferences `mFp` while it is null.
- FPDevice.FPDev.WritePipe and FPDevice.FPDev.ReadPipe: require a block size above 0. With 0, `size % blockSize` (fpdev.cpp:248, 266) divides by zero, which is undefined behaviour.
- FPDevice.FPDev.WritePipe: uses the padded size without the `u32` narrowing (see Findings).
- FPDevice.ListDevices and FPDevice.ListDevicesInfo: the temporary handle these functions allocate is not logged, and a negative device count is read as none.
- FPDevice.DeviceIDOf: a pure function of the `OpenBySerial` result and the device info. The temporary handle that `deviceID(serial)` allocates and deletes is not modelled, nor are its `OpenBySerial`, `GetDeviceInfo` and `Close` calls.
- StrUtils.Find: its own contract gives only bounds. That it finds the leftmost occurrence is the lemma StrUtils.FindSpec.

## Findings

| source | as written | input that shows it | evidently intended | confidence | as-written member | corrected member |
|---|---|---|---|---|---|---|
| strutils.h:319-323 | with `max_items = n > 1` the final `substr(start, npos)` runs when the (n-1)-th item is pushed; if that item ended the string, `start` is npos and `substr` throws | `split("a", ",", false, 2)`, `split("a,b", ",", false, 3)` and `split(",a", ",", true, 2)` throw `std::out_of_range` | return the items found (at most n) without throwing | not executed | StrUtils.SplitThrowsAtLastItem | StrUtils.SplitIntended |
| fpdev.cpp:249-252 | the padded write size is narrowed to `u32` before the temporary is allocated, then `size` bytes are copied into it | size = 2^32+1, block size 1024: the temporary holds 1024 bytes and `memcpy` writes 2^32+1 | keep the padded size in `size_t`, as `readPipe` does | not executed | BlockPipe.WriteSizeNarrowingOverruns | BlockPipe.WriteSizeHoldsData |
