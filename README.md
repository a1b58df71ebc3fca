# Bootloader uploader, `#define` rewriter and PowerShell record parser

This Dafny project models three I/O-free cores of a small Python tool set
for ADuC70xx microcontrollers and proves properties of them.

- **ADuC70xx bootloader packet layer** (`aduc_upload.py`, class
  `AducConnection`). This is the serial download protocol of Analog Devices
  application note AN-724. Each packet is laid out as:
  - the start bytes `07 0E`;
  - a length byte;
  - an ASCII command (`E`, `W`, `V` or `R`);
  - a big-endian four-byte address;
  - the data;
  - a two's-complement checksum.

  The device answers with `06` (ACK) or `07` (NAK). The packet layer also
  covers:
  - the remap of the mirrored flash window;
  - the retry loops of `_writePacket`, `_verifyPacket` and `_runPacket`;
  - the 16-byte chunk loops of `write` and `verify`;
  - the 3-bit rotation `verify` applies;
  - the page-count rules of `erase`.

  The serial port is an abstract channel. The class `AducConnection` holds:
  - the source's two pieces of connection state, `_connection` (as
    `connected`) and `_connectionEstablished`;
  - the queue of bytes the device will answer with (`responses`);
  - the log of packets written (`frames`).
- **C `#define` rewriter** (`update_pound_defines.py`):
  - `cppQuote`;
  - the per-line parse of `getPoundDefines`;
  - `replacePoundDefinesInCode`, which replaces matching `#define` lines,
    inserts missing ones after the last `#` line or after the head comments,
    and keeps the line endings;
  - `updateVersionInCode`.
- **PowerShell `key: value` record parser** (`powershellColonObjects.py`):
  - `PowershellColonObject.decodePsResult` assigns attributes line by line,
    with continuation lines and a split at the first colon.
  - `jsonObj` keeps the attributes whose name starts with an upper-case
    letter.
  - `PowershellColonObjects` cuts text into records at blank lines.

Python's ordered `dict` is a sequence of key/value pairs (module `PyDict`).
The lookup returns the first entry for a key. The assignment replaces the
entry in place or appends a new one. The Python string operations the code
relies on are in module `PyText`: `strip`, `split`, `split(maxsplit=…)`,
`find`, `replace` and `join`. Error paths are results, not preconditions:
- `Outcome.Raised` for the packet layer;
- `Outcome.IndexError` for the rewriter;
- `ok == false` or `None` for the record parser.

Files:
- `wrappers.dfy`: `Option`.
- `text.dfy`: `PyText`.
- `pydict.dfy`: `PyDict`.
- `aduc_frame.dfy`: constants, checksum, remap, the packet codec, the rotation.
- `aduc_upload.dfy`:
  - the specification functions of sending, retrying, chunking, erasing and writing;
  - the class `AducConnection`.
- `aduc_properties.dfy`: lemmas about the packet layer.
- `pound_defines.dfy`: `cppQuote` and `getPoundDefines`.
- `define_rewrite.dfy`: `replacePoundDefinesInCode` and `updateVersionInCode`.
- `rewrite_properties.dfy`: lemmas about the rewrite.
- `colon_objects.dfy`: the two PowerShell classes.
- `colon_properties.dfy`: lemmas about the record parser.

## Model

| member | source | states |
|---|---|---|
| AducFrame.CommandOf | aduc_upload.py:155 | The command byte identifies the command. A byte maps back to the command whose ASCII code it is, and to nothing else. |
| AducFrame.Checksum | aduc_upload.py:111-115 | The length byte through the data, plus the checksum, sum to a multiple of 256. |
| AducFrame.ChecksumUnique | aduc_upload.py:111-115 | The checksum is the only byte that makes that sum a multiple of 256. |
| AducFrame.RemapAddress | aduc_upload.py:135-142 | An address at or above 0x80000 is lowered by 0x80000. A lower address is unchanged. |
| AducFrame.RemapFlashWindow | aduc_upload.py:135-142 | The window [0x80000, 0x100000) maps one to one onto [0, 0x80000). |
| AducFrame.BigEndian32 | aduc_upload.py:153 | `to_bytes(length=4, byteorder="big")` gives four bytes. |
| AducFrame.BigEndian32RoundTrip | aduc_upload.py:153 | The four address bytes read back, most significant first, give the address. |
| AducFrame.FrameLayout | aduc_upload.py:149-167 | A packet is, in order: `07 0E`, the length byte `len(data)+5`, the command's ASCII byte, the address big-endian, the data, and a checksum. The checksum balances the bytes after the start bytes only. The packet is `len(data)+9` bytes long. |
| AducFrame.ParseFrameOfFrame | aduc_upload.py:149-167 | A packet the uploader builds decodes to the command, address and data it was built from. |
| AducFrame.FrameOfParseFrame | aduc_upload.py:149-167 | Every byte string the device-side decoder accepts is exactly the packet the uploader builds for its contents. The packet format is a bijection. |
| AducFrame.SingleByteCorruptionDetected | aduc_upload.py:158 | Changing any one byte after the start bytes makes the packet fail the length or checksum test. |
| AducFrame.RotateRoundTrip | aduc_upload.py:352 | Rotating a byte left by 3 (`0xFF & (b << 3 \| b >> 5)`) is undone by rotating it right by 3, and the other way round. |
| AducFrame.VerifyShift | aduc_upload.py:348-352 | `_verifyShift` keeps the length. |
| AducFrame.VerifyUnshift | aduc_upload.py:348-352 | The inverse rotation, applied byte by byte, keeps the length. |
| AducFrame.VerifyShiftRoundTrip | aduc_upload.py:348-352 | The rotation of `verify` loses nothing: undoing it byte by byte gives the data back, and the other way round. |
| AducUpload.Reply | aduc_upload.py:168-176 | The first reply byte decides the outcome: `06` gives True, `07` gives False, anything else raises. |
| AducUpload.LeadingNaks | aduc_upload.py:207-210 | The NAKs that open the reply queue are counted up to a cap. The count stops at the cap, at the end of the queue or at the first byte that is not a NAK. |
| AducUpload.ChunkPlanShape | aduc_upload.py:235-242 | The plan has `ceil(len/16)` chunks. Chunk `j` starts `16 j` bytes into the data, at address `start + 16 j`, and holds up to 16 bytes. |
| AducUpload.AducConnection.constructor | aduc_upload.py:60-83 | A new connection has no port open, is not established, and has written nothing. |
| AducUpload.AducConnection.Connect | aduc_upload.py:85-93 | The port is open afterwards. Nothing else changes. |
| AducUpload.AducConnection.Disconnect | aduc_upload.py:95-101 | The port is closed afterwards. Nothing else changes. |
| AducUpload.AducConnection.Reconnect | aduc_upload.py:103-109 | The port is open afterwards. Nothing else changes. |
| AducUpload.AducConnection.WaitForConnection | aduc_upload.py:117-133 | Returns True and leaves the connection established. It opens the port only when the connection was not already established. |
| AducUpload.AducConnection.SendPacket | aduc_upload.py:144-176 | The packet is built step by step (length and command inserted in front of the address, then the data). Oversized data or an unencodable address raises before anything is written. Otherwise exactly one packet is written, one reply is consumed, and the outcome is that reply's meaning. |
| AducUpload.AducConnection.SendWithRetries | aduc_upload.py:207-210 | The bounded `for … range(numTries)` loop matches the retry specification: the packets written, the replies consumed and the outcome. |
| AducUpload.AducConnection.WritePacket | aduc_upload.py:201-215 | `_writePacket` is the retry loop with command `W`. |
| AducUpload.AducConnection.VerifyPacket | aduc_upload.py:332-346 | `_verifyPacket` is the retry loop with command `V`. |
| AducUpload.AducConnection.RunPacket | aduc_upload.py:385-394 | `_runPacket` is the retry loop with command `R` and no data. |
| AducUpload.AducConnection.Run | aduc_upload.py:396-406 | `run` sends `R` to address 0 through the retry loop. |
| AducUpload.AducConnection.Reset | aduc_upload.py:408-418 | `reset` sends `R` to address 1 through the retry loop. |
| AducUpload.AducConnection.ErasePacket | aduc_upload.py:178-186 | A page count outside 1..124 raises before anything is sent. Otherwise one `E` packet carries the count as its single data byte. |
| AducUpload.AducConnection.Erase | aduc_upload.py:188-199 | `erase` passes `numBytes // 512` pages to `_erasePacket`. |
| AducUpload.AducConnection.SendChunks | aduc_upload.py:235-242 | The `while complete < total` loop sends the chunks of the plan in order, each through the retry loop. It stops at the first chunk that is not acknowledged. |
| AducUpload.AducConnection.Verify | aduc_upload.py:354-383 | `verify` sends the rotated data in chunks with command `V`. It closes the port and clears the established flag only if it established the connection itself and every chunk was acknowledged. |
| AducUpload.AducConnection.Write | aduc_upload.py:217-260 | `write` runs, in order: erase, with its result ignored; the `W` chunk loop, returning at the first failure; optionally verify; then run, or reset. The result is the chunk loop's, or verify's when verify ran. At the end the port is closed, and the established flag is cleared if `write` set it. |
| AducProperties.RetrySpecIsLoop | aduc_upload.py:207-210 | The closed form of the retry loop equals a specification written as the source's loop: send, stop at the first result that is not False, otherwise try again while tries remain. |
| AducProperties.RetrySendsOneFrameRepeatedly | aduc_upload.py:207-210 | A retry writes the identical packet 1 to `numTries` times. A packet that `_sendPacket` refuses raises on the first try, with nothing written. |
| AducProperties.RetryOutcomes | aduc_upload.py:207-210 | The retry returns False exactly when the first `numTries` replies are all NAKs. It returns True exactly when an ACK follows fewer NAKs. Exactly the replies the packets got are consumed. |
| AducProperties.ThirdTrySucceeds | aduc_upload.py:207-210 | Replies NAK, NAK, ACK: three copies are sent and the result is True. |
| AducProperties.ThreeNaksFail | aduc_upload.py:207-210 | Three NAKs use up the tries: three copies are sent, the result is False, and the fourth reply stays queued. |
| AducProperties.SentFrameDecodes | aduc_upload.py:144-176 | Data over 250 bytes raises with nothing written. A written packet is exactly one, and it decodes to the command, the remapped address and the data. |
| AducProperties.RunFrameBytes | aduc_upload.py:396-406 | `run` writes `07 0E 05 52 00 00 00 00 A9`. |
| AducProperties.ResetFrameBytes | aduc_upload.py:408-418 | `reset` writes `07 0E 05 52 00 00 00 01 A8`. |
| AducProperties.ChunkPlanCovers | aduc_upload.py:235-242 | The chunks concatenate back to the data. Each holds 1 to 16 bytes, and all but the last hold 16. The first is addressed at the start, and each next one where the previous one ended. |
| AducProperties.VerifyPlanCarriesShiftedData | aduc_upload.py:363-376 | `verify` uses the same chunk boundaries and addresses as `write`. Its chunks carry the rotated bytes, from which the written data is recovered. |
| AducProperties.RunPlanAppend | aduc_upload.py:235-242 | Running two plans back to back is running their concatenation. The second plan starts only if every chunk of the first was acknowledged. |
| AducProperties.RunPlanFrameCount | aduc_upload.py:235-242 | The chunk loop writes at most `numTries` packets per chunk, and at least one per chunk when it succeeds. |
| AducProperties.RunPlanAllAcked | aduc_upload.py:235-242 | Against a device that ACKs everything, each chunk's packet is written exactly once, in order. One reply per chunk is consumed. |
| AducProperties.ErasePacketRules | aduc_upload.py:178-186 | A page count outside 1..124 raises with nothing written. Otherwise exactly one packet decodes to `E`, the remapped address and the one-byte count. |
| AducProperties.EraseUnderOnePageRaises | aduc_upload.py:188-194 | Fewer than 512 bytes round down to 0 pages, so `erase` raises before anything is sent. |
| AducProperties.WriteUnderOnePageRaises | aduc_upload.py:217-234 | Hence `write` of under 512 bytes raises before anything is sent. |
| AducProperties.WriteIgnoresEraseReply | aduc_upload.py:234 | A NAK and an ACK to the erase packet lead to the same `write` session. |
| PoundDefines.Decimal | update_pound_defines.py:96 | `str(n)` of a natural number is non-empty, is all decimal digits, and has no leading zero. |
| PoundDefines.DecimalRoundTrip | update_pound_defines.py:96 | The digits of `str(n)` denote `n`. |
| PoundDefines.CppQuote | update_pound_defines.py:10-16 | A C string literal for the text. It starts and ends with `"`. Between them each character stands escaped on its own. No raw tab, CR, LF or NUL remains there, and every `"` follows a backslash. Reading the escapes `\\ \t \r \n \0 \"` back gives the original text exactly. |
| PoundDefines.EscapeAllEscaped | update_pound_defines.py:14-16 | Because the backslash is replaced first, the replace chain escapes each character on its own, and no escape is escaped twice. |
| PoundDefines.DefineOf | update_pound_defines.py:39-45 | Any name read is one non-empty word. Any value read is empty or starts with a non-space. |
| PoundDefines.CommentIgnored | update_pound_defines.py:39-40 | Text after the first `//` does not change how a line reads. This needs the text before it to hold no `//` and not to end in `/`, since `x///` starts its comment one place earlier. |
| PoundDefines.DefineOfSpaced | update_pound_defines.py:39-45 | A line of whitespace, `#define`, whitespace, NAME, whitespace and VALUE reads as `(NAME, VALUE)`. Any whitespace may stand between the words. Only the whitespace before `#define` may be empty. NAME is one word. VALUE may be empty, does not start with whitespace and keeps its trailing whitespace. Neither NAME nor VALUE holds `//`. |
| PoundDefines.DefineOfWritten | update_pound_defines.py:39-45 | `#define NAME VALUE` reads back as that name and value, when NAME is one word without `/` and VALUE holds no `//` and does not start with a space. |
| PoundDefines.DefinesKeepDefault | update_pound_defines.py:30-45 | A name no line defines keeps its default, or stays absent. |
| PoundDefines.DefinesLastWins | update_pound_defines.py:36-45 | The last line that defines a name decides its value, over earlier lines and over the defaults. |
| PoundDefines.GetPoundDefines | update_pound_defines.py:19-46 | The nested loop over files and lines equals the fold of the per-line parse over all lines, starting from a copy of the defaults. |
| DefineRewrite.NameOf | update_pound_defines.py:107-108 | A `#define` line has a name exactly when it has a second word. |
| DefineRewrite.FirstPass | update_pound_defines.py:105-123 | Every line gives at least one line. The insertion point, when set, lies within the text. |
| DefineRewrite.HeadCommentEnd | update_pound_defines.py:124-141 | The head-comment insertion point lies within the text. |
| DefineRewrite.Reversed | update_pound_defines.py:143-145 | Reversal: element `i` of the result is element `len-1-i` of the input. |
| DefineRewrite.Terminated | update_pound_defines.py:147-148 | The lines end with a blank line. At most one empty line is added, and the lines before it are kept. |
| DefineRewrite.MatchKeys | update_pound_defines.py:110-115 | The loop over the keys for one `#define` line gives the lines written for the keys of that name, in dictionary order, and those keys. |
| DefineRewrite.FirstPassOf | update_pound_defines.py:105-123 | The `enumerate(data)` loop equals the first-pass specification, raising on a nameless `#define`. |
| DefineRewrite.HeadCommentEndOf | update_pound_defines.py:124-141 | The head-comment loop, with its `break`, equals the scan specification. |
| DefineRewrite.InsertPending | update_pound_defines.py:143-145 | The loop of `insert(insertAt, …)` calls equals inserting the pending lines at one index, later keys in front of earlier ones. |
| DefineRewrite.RewriteLinesOf | update_pound_defines.py:97-148 | The lines of the result: the first pass, the insertion point, the insertion and the final empty line. |
| DefineRewrite.ReplacePoundDefinesInCode | update_pound_defines.py:76-151 | `None` returns the text unchanged. Otherwise the text is split into lines, with `\r` removed when present, rewritten, and joined with the ending it had. |
| DefineRewrite.UpdateVersionInCode | update_pound_defines.py:189-229 | The rewrite is applied to a copy of `name2val` extended with `VERSION` and `BUILD_DATE`. |
| RewriteProperties.StepFacts | update_pound_defines.py:105-123 | One line of the first pass: a nameless `#define` raises. A `#` line moves the insertion point after it. A `#define` line with matching keys is replaced by their lines. Every other line is kept. |
| RewriteProperties.RaisesIff | update_pound_defines.py:106-108 | The first pass raises exactly when some line starts with `#define` and has no second word. |
| RewriteProperties.RewriteRaisesIff | update_pound_defines.py:100-108 | On text, the rewrite raises exactly when some line, with any `\r` removed, is such a nameless `#define`. |
| RewriteProperties.InsertAfterLastDirective | update_pound_defines.py:118-120 | With a line that starts with `#`, new lines go right after the last such line. Without one, the first pass leaves the place open. |
| RewriteProperties.HeadCommentEndAfterComment | update_pound_defines.py:124-141 | Without `#` lines, new lines go at the top or right after a line that is a `//` comment or ends a `/* */` comment. |
| RewriteProperties.MatchedKeysIff | update_pound_defines.py:110-115 | A key is among the matched keys of a name exactly when its text before `(`, stripped, is that name. |
| RewriteProperties.ReplacedIff | update_pound_defines.py:110-115 | A key replaced a line exactly when some `#define` line carries its name. |
| RewriteProperties.KeptWhenNoMatch | update_pound_defines.py:105-123 | When no key names a `#define` line, the first pass keeps every line verbatim and replaces nothing. |
| RewriteProperties.RewriteLinesFrom | update_pound_defines.py:105-148 | Every line of the result is a line of the text, a line written for an entry of the dictionary, or the final empty line. |
| RewriteProperties.EveryKeyWritten | update_pound_defines.py:110-145 | Every entry of the dictionary appears in the result as `#define key fixval(v)`, either in place of a line of its name or inserted. |
| RewriteProperties.LineEndingsKept | update_pound_defines.py:100-104 | Text with a `\r` comes back with CRLF line endings only. Text without one comes back without `\r`. Both need every `#define` line written for the dict to hold no `\n` and no `\r`. An unquoted value with a line break breaks the claim, since its lines are joined as they are. |
| RewriteProperties.EmptyUpdate | update_pound_defines.py:143-151 | With no keys, LF text with no bare `#define` line comes back unchanged, with a line break added when its last line is not blank. Text with a bare `#define` raises even with no keys (lines 106-108); RewriteRaisesIff covers that case. |
| RewriteProperties.DefineLineReadBack | update_pound_defines.py:39-45 | A written `#define key fixval(v)` line is read back by `getPoundDefines` as that key and `fixval(v)`, under the conditions of DefineOfWritten. |
| RewriteProperties.VersionValueQuoted | update_pound_defines.py:217-228 | Whatever `quotestrings` says, a version or build date is written as the C string of its text. |
| RewriteProperties.VersionDictEntries | update_pound_defines.py:213-228 | `VERSION` and `BUILD_DATE`, when given, hold their quoted values. Every other key keeps the caller's value. |
| RewriteProperties.VersionWritten | update_pound_defines.py:217-221 | A given version appears in the result as `#define VERSION "…"`. |
| RewriteProperties.BuildDateWritten | update_pound_defines.py:222-228 | A given build date appears in the result as `#define BUILD_DATE "…"`. |
| ColonObjects.ColonObject.constructor | powershellColonObjects.py:14-18 | A new object has no attributes. |
| ColonObjects.ColonObject.DecodePsResult | powershellColonObjects.py:20-36 | The loop over the stripped, `\n`-split lines leaves the attributes, and raises or not, exactly as the line-by-line specification says. |
| ColonObjects.ColonObject.JsonObj | powershellColonObjects.py:50-59 | The filter loop over the attributes equals the `jsonObj` specification. It gives `None` where `k[0]` raises. |
| ColonObjects.ColonObjects.constructor | powershellColonObjects.py:70-76 | A new collection holds no objects. |
| ColonObjects.ColonObjects.DecodePsResult | powershellColonObjects.py:95-104 | Previous objects are discarded. The text is split at `\n\n` with its `\r` left in, as line 101 leaves it. Object `i` is a fresh object decoded from record `i`, up to the first record that raises. |
| ColonObjects.ColonObjects.JsonObj | powershellColonObjects.py:124-129 | The list of every object's `jsonObj`, in order. |
| ColonObjects.DecodeLine | powershellColonObjects.py:28-36 | One pass of the line loop. An empty line changes nothing. A continuation appends to the value. A key line splits at the first colon. The result is the specification's step on this line, raising exactly where it does. |
| ColonObjects.NewColonObject | powershellColonObjects.py:14-18 | An object built from a raw text is fresh. Its attributes, and whether it raised, are those of decoding that text from no attributes. |
| ColonObjects.DecodeRecords | powershellColonObjects.py:102-104 | The list of fresh objects decoded from the records one by one, stopping at the first record that raises. |
| ColonObjects.JsonObjs | powershellColonObjects.py:129 | The loop over the objects gives the `jsonObj` of each in order, and raises at the first object whose `jsonObj` raises. |
| ColonObjects.RunStaysFailed | powershellColonObjects.py:27-36 | Once a line has raised, later lines change nothing. |
| ColonObjects.DecodeAllStaysFailed | powershellColonObjects.py:102-104 | Once a record has raised, later records change nothing. |
| ColonObjects.JsonStaysFailed | powershellColonObjects.py:56-58 | Once an attribute with the empty name is met, `jsonObj` raises. |
| ColonProperties.FirstColon | powershellColonObjects.py:33-35 | `K:V` splits at the first colon only. The key is `K.rstrip()`. The value is `V.lstrip()`, whatever colons it holds. |
| ColonProperties.LineStepSets | powershellColonObjects.py:30-36 | A key line sets the attribute `K` to `V`. A continuation appends its `lstrip`ped text to the current value and re-assigns the current key. Every other attribute is unchanged. |
| ColonProperties.StepOkIff | powershellColonObjects.py:30-36 | A line raises exactly when it is a key line without a colon, or names a read-only property. A line that raises leaves the attributes unchanged. |
| ColonProperties.DecodeOkIff | powershellColonObjects.py:27-36 | Decoding succeeds exactly when no line is bad. Empty lines are skipped. |
| ColonProperties.DecodeFailKeeps | powershellColonObjects.py:27-36 | At the first bad line decoding stops. The attributes assigned before it stay. |
| ColonProperties.OtherKeysKeep | powershellColonObjects.py:30-36 | Lines that name other keys leave an attribute as it was. |
| ColonProperties.LastWins | powershellColonObjects.py:33-36 | A repeated key ends with the value of its last occurrence. |
| ColonProperties.DecodeKeepsDistinct | powershellColonObjects.py:36 | `setattr` never duplicates an attribute name. |
| ColonProperties.JsonOfIff | powershellColonObjects.py:50-59 | `jsonObj` raises exactly when an attribute has the empty name. Otherwise it holds exactly the attributes whose name starts with an upper-case letter, with their values unchanged. |
| ColonProperties.DecodeAllIff | powershellColonObjects.py:100-104 | Object `i` is record `i` decoded. All records give objects exactly when none raises. When one raises, it is the record after the last object. |
| ColonProperties.JsonAllIff | powershellColonObjects.py:124-129 | The collection's `jsonObj` succeeds exactly when every object's does. It then lists them in order. |
| ColonProperties.AsWrittenOneRecord | powershellColonObjects.py:101-102 | As written, CRLF text never splits: it is one single record. |
| ColonProperties.CrlfRecordsAsWritten | powershellColonObjects.py:101-104 | As written, `"A:1\r\n\r\nB:2"` is one record, which raises at the line `"\r"`, and no object is kept. |
| ColonProperties.CrlfSameAsLf | powershellColonObjects.py:101-102 | With `\r` removed as intended, CRLF text gives the same records as LF text. |
| ColonProperties.CrlfRecordsCorrected | powershellColonObjects.py:101-104 | With `\r` removed, `"A:1\r\n\r\nB:2"` gives two objects, `{A: 1}` and `{B: 2}`. |

## Left out

- The serial port itself, as I/O. It is a queue of reply bytes the device will send and a log of written packets.
  - The `magic`, `sendbuf` and `checksum` writes of one packet are logged as one entry.
  - The drain loop before each packet and the busy read after it (aduc_upload.py:161-169) are left out. An empty reply queue, where the source would wait forever, gives `Raised(NoResponse)`.
- AducUpload.AducConnection.WaitForConnection: the backspace/identification exchange and its unbounded loop (aduc_upload.py:126-130) are abstracted. The method only records that the connection is established.
- Baud rate, parity, timeouts and the other port settings of `__init__` are not modelled. Only the constants `numTries`, `pageSize` and `bytesPerWritePacket` are.
- `print` output and the progress callbacks: percentages are floating point.
- `upload`, `uploadData`, `uploadIhex` and `_looksLikeIhex`. They depend on the intelhex library and a regular expression, which are not part of this model.
- `cmdline` in every file: argument parsing around I/O.
- `replacePoundDefinesInFile`, `updateVersionInFile` and the file reading and UTF-8 decoding of `getPoundDefines`.
  - GetPoundDefines takes the decoded text of each file.
- PoundDefines.GetPoundDefines: a single file name passed as a `str` is taken as a list of one text.
- DefineRewrite.UpdateVersionInCode: `buildDate` is only a string. The `datetime` branch (`astimezone().isoformat()`, a clock) is left out, and so is the default `datetime.now()`.
- Values of `name2val` are strings, integers and booleans. `str(v)` of a float is not modelled: floating point.
- `str.isspace`, `str.isalpha` and `str.isupper` cover ASCII and the Latin-1 range.
  - ColonObjects.IsUpperLetter covers `A`-`Z` and U+00C0-U+00DE except U+00D7. Upper-case letters beyond U+00FF count as not exported.
- ColonObjects.ColonObject.DecodePsResult: only the three property names `json`, `jsonStr` and `jsonObj` raise on assignment. Names of special attributes such as `__class__` or `__dict__`, whose assignment Python treats specially, are ordinary attributes here.
- `PowershellColonObjects.executeAndDecodeResult` (a PowerShell subprocess) and `__iter__`/`__repr__`, `json` and `jsonStr` (JSON text formatting).
- The `None` argument of `PowershellColonObject.decodePsResult`. The constructor never passes it.
- ColonObjects.ColonObject.DecodePsResult: the decoded attributes are assigned to the object when the loop ends or raises, not by one `setattr` per line. Nothing reads the object in between, so the final state is the same.
- `octopus_ui.py`, `port_picker_ui.py`, `_winDevices.py` and `port_in_use.py` are not part of this model: UI and Windows-only subprocess wrappers.

Behaviour modelled as the code has it:
- `erase` rounds the page count down (`numBytes // 512`), although its doc comment says it rounds up.
- `_remapAddress` uses 0x80000, not the 0x0080_0000 of its doc comment.
- Keys that replaced nothing are inserted one by one at the same index, so they end up in reverse dictionary order.
- The head-comment scan never clears its block-comment flag.
- `getPoundDefines` cuts a line at its first `//`, even inside a quoted value. So DefineOfWritten requires a value without `//`.

## Findings

| source | as written | input that shows it | evidently intended | confidence | as-written member | corrected member |
|---|---|---|---|---|---|---|
| powershellColonObjects.py:101 | `rawFromPowershell.replace('\r','')` discards its result, so `\r` stays in the text and CRLF text has no `\n\n` to split at | `"A:1\r\n\r\nB:2"`: one record, whose line `"\r"` is a key line without a colon, so `kv[1]` raises `IndexError` and no object is kept | `rawFromPowershell = rawFromPowershell.replace('\r','')`. That gives two objects `{A: 1}` and `{B: 2}`, and the same records as the LF text, as `executeAndDecodeResult` already does at line 92 | not executed | ColonProperties.CrlfRecordsAsWritten | ColonProperties.CrlfRecordsCorrected |
