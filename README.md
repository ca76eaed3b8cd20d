# Sensor-line parser of the OffGas garage bridge

The bridge connects an Arduino gas sensor to the rest of a garage-monitoring
system. It reads lines from a serial link. The only logic it implements is
`BluetoothManager.read_line`. That method strips the line of surrounding
whitespace. If the stripped line starts with the case-sensitive tag `MQ2:`, it
converts the text after the first colon with Python's `int()` and returns
`{"gas": value, "timestamp": now}`. It returns `None` for every other line and
for a value `int()` rejects with `ValueError`.

The model consists of pure functions and lemmas about them, in four modules:

- `Wrappers`: the `Option` type, standing for "a dictionary or `None`".
- `PyStr`: the Python `str` operations the method uses.
  - `strip()`, with Python's full whitespace set, which is the set of
    `str.isspace()`: the ASCII control characters 9–13 and 28–31, the space,
    and the Unicode spaces U+0085, U+00A0, U+1680, U+2000–U+200A, U+2028,
    U+2029, U+202F, U+205F and U+3000.
  - `startswith`.
  - `split(sep, 1)`.
- `PyInt`: `int(s)` in base 10.
  - It skips whitespace around the literal and takes an optional `+` or `-`.
    The whitespace `int()` skips is that of `str.isspace()` less the four
    information separators U+001C–U+001F: CPython skips only TAB, LF, VT, FF,
    CR and the space among the ASCII characters. A separator that `strip()`
    has not removed therefore makes `int()` fail.
  - Then come one or more ASCII digits. Single underscores may separate two
    digits, and leading zeros are allowed.
  - `None` stands for `ValueError`.
  - It also contains an independent grammar of accepted literals (`Literal`,
    `ValidLiteral`, `Render`, `LiteralValue`), against which the parser is
    proved, and the formatter `str(n)` (`FormatInt`).
- `SensorLine`: `ParseLine`, the gas value of a decoded line, and
  `ReadLine(line, now)`, the method itself. The clock reading is a parameter.

## Model

| member | source | states |
|---|---|---|
| PyStr.IsSpace | bridge.py:72 | the characters `strip()` removes: those of `str.isspace()`, listed one by one |
| PyStr.StripLeft | bridge.py:72 | the result is a suffix of the line; everything cut off in front is whitespace; the result does not start with whitespace |
| PyStr.StripRight | bridge.py:72 | the result is a prefix of the line; everything cut off behind is whitespace; the result does not end with whitespace |
| PyStr.Strip | bridge.py:72 | the stripped string is no longer than the line, and it neither starts nor ends with whitespace |
| PyStr.Leading | bridge.py:72 | the whitespace `strip()` cuts from the front: all whitespace, and followed by the rest of the line |
| PyStr.Trailing | bridge.py:72 | the whitespace `strip()` cuts from the back: all whitespace, and it follows the stripped text |
| PyStr.StripSplit | bridge.py:72 | every line is its stripped text with only whitespace in front of it and behind it |
| PyStr.SplitBare | bridge.py:72 | for whitespace `a` and `b` around a text that neither starts nor ends with whitespace, `strip()` cuts exactly `a` and `b` and keeps the text |
| PyStr.StripPadded | bridge.py:72 | whitespace added on either side of a string does not change what it strips to |
| PyStr.StripRightAfter | bridge.py:72 | behind a text that does not end in whitespace, stripping the right end of a longer string only strips what follows that text |
| PyStr.StripIdempotent | bridge.py:72 | stripping twice gives the same as stripping once |
| PyStr.StripBare | bridge.py:72 | a string that neither starts nor ends with whitespace strips to itself |
| PyStr.StripFront | bridge.py:72 | a string that does not start with whitespace strips to one of its prefixes |
| PyStr.StartsWith | bridge.py:74 | `startswith(p)`: the string is at least as long as `p` and its first `|p|` characters are `p` |
| PyStr.StartsWithConcat | bridge.py:74 | a string starts with `p` exactly when it is `p` followed by some text (both directions) |
| PyStr.SplitOnce | bridge.py:76 | `split(sep, 1)` gives the whole string when `sep` is absent; otherwise it gives two parts that rebuild the string around the first `sep`, the first part holding no `sep` |
| PyStr.SplitOnceAfter | bridge.py:76 | when the text in front of a `sep` contains none, splitting yields exactly that text and the rest |
| PyInt.IsIntSpace | bridge.py:76 | the whitespace `int()` skips: that of `str.isspace()` except the information separators U+001C–U+001F |
| PyInt.ScanDigits | bridge.py:76 | the digit scanner succeeds only on text that is empty or ends in a digit |
| PyInt.ScanDigitsSpec | bridge.py:76 | the digit scanner accepts exactly the well-grouped digit strings, and it accumulates their decimal value |
| PyInt.ParseDigits | bridge.py:76 | an unsigned run accepted as a number starts and ends with a digit |
| PyInt.ParseDigitsSpec | bridge.py:76 | an unsigned run of digits is accepted exactly when it is digit groups, with the value of its digits without underscores |
| PyInt.SplitSign | bridge.py:76 | the sign read and the text after it rebuild the literal |
| PyInt.ParseSigned | bridge.py:76 | an accepted signed literal ends in a digit, and a negative value has a leading `-` |
| PyInt.ParseInt | bridge.py:76 | a string `int()` accepts strips to a nonempty text ending in a digit; whitespace around the literal must be whitespace `int()` skips |
| PyInt.LiteralParts | bridge.py:76 | a well-formed literal strips to its sign and digits, and `strip()` cuts exactly its leading and trailing whitespace |
| PyInt.ParseIntComplete | bridge.py:76 | every well-formed literal (whitespace `int()` skips, optional sign, digit groups, whitespace `int()` skips) parses to the value it denotes |
| PyInt.Decompose | bridge.py:76 | every string `int()` accepts is a well-formed literal, and its value is the literal's value |
| PyInt.ParseIntAccepts | bridge.py:76 | `int(s) == v` exactly when `s` renders a well-formed literal denoting `v` (both directions) |
| PyInt.ParseIntForeignChar | bridge.py:75-85 | a character that is neither whitespace `int()` skips, digit, sign nor underscore makes `int()` fail; an information separator is such a character |
| PyInt.LiteralChars | bridge.py:76 | each character of a well-formed literal is whitespace `int()` skips, a digit, a sign or an underscore |
| PyInt.ParseIntBlank | bridge.py:75-85 | a whitespace-only string, the empty one included, is no integer |
| PyInt.LeadingZero | bridge.py:76 | a leading zero in front of digit groups is accepted and does not change the value |
| PyInt.Underscore | bridge.py:76 | one underscore between two digit groups is accepted and ignored |
| PyInt.FormatIntParses | bridge.py:76 | `int(w + str(n)) == n` for every integer `n` and every `w` made of whitespace `int()` skips |
| PyInt.FormatLiteral | bridge.py:76 | `w + str(n)`, for `w` made of whitespace `int()` skips, is a well-formed literal denoting `n` |
| PyInt.Decimal | bridge.py:76 | `str` of a natural number is a nonempty run of digits with no leading zero |
| PyInt.DecimalRoundTrip | bridge.py:76 | the digits `Decimal` writes denote the number written |
| SensorLine.ParseLine | bridge.py:72-87 | a line gives a value only if its stripped form starts with `MQ2:` |
| SensorLine.ReadLine | bridge.py:70-87 | a reading is returned exactly when the line parses; it holds the parsed value as `gas` and the clock reading as `timestamp`, and nothing else |
| SensorLine.ParseLineSpec | bridge.py:72-87 | a line whose stripped form does not start with `MQ2:` gives `None`; otherwise the value is `int()` of the stripped line minus its first four characters |
| SensorLine.TagSplit | bridge.py:74-76 | the first colon of a tagged line is the tag's own, so the payload is everything after the tag |
| SensorLine.ParseLinePadded | bridge.py:72 | whitespace around a line, a trailing `\r\n` included, does not change its reading |
| SensorLine.ParseLineBare | bridge.py:72-76 | a line that neither starts nor ends with whitespace is parsed as it stands |
| SensorLine.ParseLineTagged | bridge.py:72-76 | after the tag the value is `int()` of the rest of the line, less the whitespace `strip()` cut from its end |
| SensorLine.ParseLineTaggedBare | bridge.py:72-76 | after the tag, a payload that does not end in whitespace is converted by `int()` as it stands |
| SensorLine.ParseLineOtherTag | bridge.py:74 | a line whose first character is not whitespace and whose first four characters are not `MQ2:` gives `None` |
| SensorLine.LowerCaseTag | bridge.py:74 | the tag is case-sensitive: `mq2:` followed by anything gives `None` |
| SensorLine.TagWithoutColon | bridge.py:74 | `MQ2 ` followed by anything gives `None` |
| SensorLine.ParseLineSecondColon | bridge.py:76-85 | a second colon stays in the payload and the line gives `None` |
| SensorLine.ParseLineForeignChar | bridge.py:75-85 | a payload with a character no integer literal contains, such as a letter, a decimal point or an information separator, gives `None` |
| SensorLine.ParseLineEmptyPayload | bridge.py:75-85 | a tag with nothing but whitespace after it gives `None` |
| SensorLine.ParseLineComplete | bridge.py:72-80 | every well-formed literal after the tag is read as its value, whatever its sign, size, leading zeros and underscores, with whitespace around the line |
| SensorLine.ParseLineSound | bridge.py:72-80 | a line that gives a value is, once stripped, the tag followed by a well-formed literal denoting that value |
| SensorLine.ParseLineRoundTrip | bridge.py:72-80 | `MQ2:` followed by whitespace `int()` skips and `str(n)`, with any whitespace around the line, is read as `n` |
| SensorLine.FormattedTagged | bridge.py:72-76 | `str(n)` ends in a digit, so after the tag nothing of it is stripped |
| SensorLine.ReadLineRoundTrip | bridge.py:70-82 | the line `MQ2:` and `str(n)` is read as the reading with gas `n` and the given timestamp |
| SensorLine.NegativeReading | bridge.py:76 | `MQ2:-7` gives `-7` |
| SensorLine.PlusSignReading | bridge.py:76 | `MQ2:+12` gives `12` |
| SensorLine.SeparatorBeforeValue | bridge.py:72-85 | an information separator between the tag and the number is kept by `strip()` and rejected by `int()`: the line gives `None` |
| SensorLine.SeparatorAfterValue | bridge.py:72-80 | an information separator at the end of the line is removed by `strip()`: `MQ2:5` and a separator give `5` |

## Left out

- Serial I/O is not modelled: `connect`, `readline()` and `ser.close()` (bridge.py:62-68, 72, 227). The input of `ReadLine` is the line after it has been read.
- `decode('utf-8')` (bridge.py:72) is not modelled; the input is the decoded text. A line that is not UTF-8 raises outside the `try` and is not modelled either.
- The clock `datetime.datetime.now().isoformat()` (bridge.py:77) becomes the parameter `now`; its text is not interpreted.
- The methods and classes whose bodies are `pass` have no behaviour to model: `send_command`, `DatasetManager`, `AnomalyDetector`, `FanController`, `MQTTManager`, `Bridge.process_cycle` and `Bridge.stop` (bridge.py:90-92, 99-188, 230-242). The module docstring (bridge.py:1-12) lists the average of the other garages, an anomaly rule, fan control, MQTT publishing and manual commands, and the stubs' docstrings describe the same duties, but their bodies are `pass`, so the model follows the code and has none of them.
- `Bridge.start` (bridge.py:208-227) is not modelled. It is an endless read loop that prints the reading and stops on `KeyboardInterrupt`: process plumbing without logic.
- The `Config` constants (bridge.py:33-47) are not modelled; no implemented code reads them besides the serial settings.
- PyInt.ParseInt: does not model the non-ASCII decimal digits that `int()` also accepts (Arabic-Indic digits, full-width digits and so on). The Arduino sends ASCII.
- PyInt.ParseInt: does not model the 4300-digit limit on string-to-integer conversion of interpreters that enforce `int_max_str_digits` (3.11 and later, and the 3.10.7, 3.9.14, 3.8.14 and 3.7.14 maintenance releases). That limit depends on the interpreter version and its settings; the model accepts literals of any length, as interpreters without the limit do.
