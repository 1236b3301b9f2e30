# HDROP BLE client: sensor decoder, log file name and row count

The HDROP client scans for the `HDROP-580` peripheral, connects and switches its
sensors on. It then subscribes to a hydration channel and a temperature channel,
decodes every notification into a reading and appends it to a text log. This
project models the three parts of `www/libs/ble/main.js` that compute something
of their own. Everything else in that file is a call into the BLE, file-system
or UI plugins.

- **`SensorDecoder`** (`decoder.dfy`) models `calculateRes`. The payload is a
  byte sequence (`seq<bv8>`). Its first two bytes are read as a little-endian
  `bv16`, as `DataView.getUint16(0, true)` does. A buffer shorter than two bytes
  yields `Err(RangeError)`, the exception `DataView` throws. The source defines
  no error type of its own. The 16-bit value is split with the source's own bit
  operations into a `bv12` mantissa (`value & 0x0FFF`) and an unsigned `bv4`
  exponent (`value >> 12`). The reading is `mantissa * 2^exponent`. This is the
  base-2, unsigned-exponent encoding of the TI SensorTag `sfloatExp2ToDouble`
  routine. It is not the signed base-10 SFLOAT of IEEE 11073-20601.

  JavaScript computes the reading as a double. Every possible reading is an
  integer no larger than 4095 * 2^15, which is below 2^53, so that double is
  exact. The model therefore returns a `nat`. The bit operations `&` and `>>`
  convert their operand to a signed 32-bit integer first. For a value below
  2^16 that conversion changes nothing, so the arithmetic shift equals the
  logical shift modelled here.
- **`LogFileName`** (`log_file_name.dfy`) models the name of the saved log
  file: `"log-" + date + "-" + time + ".txt"`, where each character of `date`
  and `time` outside `[A-Za-z0-9]` is replaced by `-`. The date and time are
  arbitrary strings here.
- **`TextAreaRows`** (`text_area_rows.dfy`) models `incrementTextAreaRow`. It
  splits the text with `/\r|\r\n|\n/` and sets the rows attribute to the number
  of pieces plus one. The regular expression is modelled as an ordered
  alternation: at each position the first alternative that matches wins. The
  split follows `String.prototype.split`, which scans for the next match and
  cuts the piece there. Because `\r` is tried before `\r\n`, a CR LF pair counts
  as two separators with an empty piece between them. A second definition,
  `SplitAtBreaks`, cuts at every CR and LF directly. It is proved equal to the
  regular-expression split, and the characterisation of the pieces is proved
  on it. The model takes the text as an arbitrary string. In the running
  program the text comes from jQuery's `.val()` on a textarea, and that getter
  removes every CR, so a CR, and hence a CR LF pair, never reaches the split
  there. The lemmas about CR therefore describe the split on arbitrary
  strings, not behaviour a user of the program can observe.

All operations are Dafny functions. They have no `reads` clause, so they are
deterministic and stateless, as the source's decoder is.

## Model

| member | source | states |
|---|---|---|
| `SensorDecoder.ReadUint16LE` | www/libs/ble/main.js:213 | Succeeds exactly when the buffer has at least two bytes. The value is `data[0] + 256 * data[1]` (little-endian). |
| `SensorDecoder.ReadAfterEncode` | www/libs/ble/main.js:213 | Reading the little-endian bytes of any 16-bit value gives back that value, whatever bytes follow. |
| `SensorDecoder.EncodeAfterRead` | www/libs/ble/main.js:213 | For a two-byte buffer, writing back the value read reproduces the buffer, so the read loses nothing. |
| `SensorDecoder.Mantissa` | www/libs/ble/main.js:218 | `value & 0x0FFF` is a 12-bit field equal to `value mod 4096`. |
| `SensorDecoder.Exponent` | www/libs/ble/main.js:219 | `value >> 12` is an unsigned 4-bit field (0..15) equal to `value div 4096`. It is never negative. |
| `SensorDecoder.SplitIsLossless` | www/libs/ble/main.js:218-219 | `value == exponent * 4096 + mantissa`, and packing the two fields again rebuilds the value. |
| `SensorDecoder.SplitAfterPack` | www/libs/ble/main.js:218-219 | Splitting a packed (mantissa, exponent) pair recovers both fields, so the split is a bijection. |
| `SensorDecoder.Pow2` | www/libs/ble/main.js:221 | `Math.pow(2, exponent)` is an exact integer of at least 1. |
| `SensorDecoder.Pow2OfExponentBounded` | www/libs/ble/main.js:219-221 | For an exponent nibble the magnitude is at most 2^15 = 32768. |
| `SensorDecoder.CalculateRes` | www/libs/ble/main.js:211-223 | Yields a reading exactly when the buffer has at least two bytes, and fails otherwise. The reading is at most 4095 * 32768. It is 0 exactly when the first byte and the low nibble of the second byte are zero, i.e. when the mantissa is 0. |
| `SensorDecoder.ReadingBounds` | www/libs/ble/main.js:218-222 | `mantissa * 2^exponent` is at most 4095 * 32768, and it is 0 exactly when the mantissa is 0. |
| `SensorDecoder.MantissaZero` | www/libs/ble/main.js:213-218 | The mantissa is 0 exactly when the low byte and the low nibble of the high byte are 0. |
| `SensorDecoder.MantissaOfBytes` | www/libs/ble/main.js:213-219 | In terms of the two bytes, the mantissa is `b0 + 256 * (b1 mod 16)` and the exponent is `b1 div 16`. |
| `SensorDecoder.CalculateResArithmetic` | www/libs/ble/main.js:213-222 | The reading equals `(b0 + 256 * (b1 mod 16)) * 2^(b1 div 16)`, an independent definition in integer arithmetic. |
| `SensorDecoder.TrailingBytesIgnored` | www/libs/ble/main.js:213 | Only the first two bytes are consumed. Appending bytes, or cutting the buffer to two bytes, leaves the reading unchanged. |
| `SensorDecoder.DecodeOfEncodedValue` | www/libs/ble/main.js:211-223 | Every 16-bit value, written little-endian, decodes to `(v & 0x0FFF) * 2^(v >> 12)`. |
| `SensorDecoder.DecodeOfPackedFields` | www/libs/ble/main.js:218-222 | Any 12-bit mantissa and 4-bit exponent, packed and written little-endian, decode to `mantissa * 2^exponent`. |
| `SensorDecoder.WorkedValues` | www/libs/ble/main.js:213-222 | `[0x34,0x12]` gives 1128, `[0x00,0x00]` gives 0, `[0xFF,0xF0]` gives 8355840, `[0x01,0x00]` gives 1 and `[0x00,0x01]` gives 256. Buffers of 0 or 1 byte fail. |
| `LogFileName.Sanitize` | www/libs/ble/main.js:61 | The replacement keeps the length. Every output character is alphanumeric or `-`. Every character in `[A-Za-z0-9]` is kept at its position, and every other character becomes `-`. |
| `LogFileName.SanitizeIdempotent` | www/libs/ble/main.js:61 | Applying the replacement a second time changes nothing. |
| `LogFileName.SanitizeFixedPoint` | www/libs/ble/main.js:61 | A string is left unchanged exactly when it consists only of alphanumerics and `-` (both directions). |
| `LogFileName.FileName` | www/libs/ble/main.js:61 | The name starts with `log-` and ends with `.txt`. Between them come the sanitised date, one `-` and the sanitised time, so its length is the input lengths plus 9. |
| `LogFileName.FileNameCharacters` | www/libs/ble/main.js:61 | A file name holds only alphanumerics, `-` and `.`. Its only `.` is the one that starts `.txt`. |
| `TextAreaRows.FirstMatching` | www/libs/ble/main.js:227 | Ordered alternation: the result is the first alternative that matches. No earlier alternative matches, and if none matches the result is None. |
| `TextAreaRows.MatchLength` | www/libs/ble/main.js:227 | A line-break match is non-empty and lies within the text. |
| `TextAreaRows.MatchLengthIsOneBreak` | www/libs/ble/main.js:227 | A break matches exactly where the text starts with CR or LF, and the match is one character. The `\r\n` alternative is never chosen. |
| `TextAreaRows.Split` | www/libs/ble/main.js:227 | The pieces of the text: one more than its CR and LF characters, none of them holding a break. With the break characters put back between them, they rebuild the text exactly. |
| `TextAreaRows.SplitUnique` | www/libs/ble/main.js:227 | Any break-free pieces that rebuild the text around its break characters equal `Split(text)`, so `Split`'s contract fixes every cut. |
| `TextAreaRows.SplitFromIsSplitAtBreaks` | www/libs/ble/main.js:227 | Splitting with the ordered alternation `/\r|\r\n|\n/` is the same as cutting at every CR and at every LF. |
| `TextAreaRows.SplitAtBreaksRebuilds` | www/libs/ble/main.js:227 | The pieces and the break characters, interleaved, give back the scanned text, and there is one piece more than there are breaks. |
| `TextAreaRows.SplitAtBreaksUnique` | www/libs/ble/main.js:227 | Break-free pieces that rebuild the rest of the text around break separators are exactly the pieces the split produces. |
| `TextAreaRows.SplitFromLength` | www/libs/ble/main.js:227-228 | The number of pieces is (number of CR) + (number of LF) + 1. |
| `TextAreaRows.SplitFromPiecesHaveNoBreaks` | www/libs/ble/main.js:227 | No piece of the split contains CR or LF. |
| `TextAreaRows.SplitFromContents` | www/libs/ble/main.js:227 | Concatenating the pieces gives the text with its CR and LF removed, in order. |
| `TextAreaRows.SplitProperties` | www/libs/ble/main.js:227-228 | For a whole text: the piece count, pieces free of breaks, and the contents preserved. |
| `TextAreaRows.IncrementTextAreaRow` | www/libs/ble/main.js:225-230 | The rows value set is (number of CR) + (number of LF) + 2. |
| `TextAreaRows.CountAppend` | www/libs/ble/main.js:226-228 | The number of occurrences of a character in a concatenation is the sum of its occurrences in the two parts. |
| `TextAreaRows.CrLfAddsTwoRows` | www/libs/ble/main.js:226-229 | Appending a CR LF pair raises the rows value by two, not one. |
| `TextAreaRows.SplitExamples` | www/libs/ble/main.js:226-229 | The empty text splits into one empty piece, giving 2 rows. `"a\r\nb"` splits into `"a"`, `""`, `"b"`, giving 4 rows. |

## Left out

- BLE scanning, device-name matching, connecting and disconnecting, service and characteristic lookup, the sensor-enable write and notification subscription (www/libs/ble/main.js:20-55, 111-177). These are calls into the Evothings BLE plugin, whose behaviour is not visible here.
- Saving the log: `resolveLocalFileSystemURL`, `getFile`, `createWriter`, `seek` and `write` (www/libs/ble/main.js:57-108). This is Cordova file-system I/O. Only the file name it builds is modelled.
- The notification handlers' textarea reads and writes and their log-line formatting (www/libs/ble/main.js:180-203). This is jQuery UI state. `IncrementTextAreaRow` takes the textarea's text as a parameter and returns the rows value instead of setting the attribute.
- The temperature rescale `res * (3.6 / 1023)` (www/libs/ble/main.js:201). It is floating-point arithmetic applied by the caller, outside the decoder.
- `Date`, `toLocaleDateString` and `toLocaleTimeString` (www/libs/ble/main.js:59-60, 182). They depend on the clock and the locale, so the file name is modelled over arbitrary date and time strings.
- `alert` and the `deviceready` wiring (www/libs/ble/main.js:233). These are platform events.
- `LogFileName.Sanitize`: JavaScript strings are sequences of UTF-16 code units, and a character outside the Basic Multilingual Plane is two code units, which the regular expression turns into two `-`. Dafny's `char` is a Unicode scalar value, so such a character becomes one `-` here. The model is exact for text within the Basic Multilingual Plane.
- `TextAreaRows.Split`: the optional `limit` argument of `String.prototype.split` is not modelled, because the source never passes it.
