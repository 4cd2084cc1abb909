# Serial-to-MQTT bridge: line translation and read loop

This project models the core of a small bridge that forwards sensor readings
from a serial device (an Arduino, say) to an MQTT broker. The device writes
lines such as `TEMP:25.3` or `SOIL:512`. For each line read, the bridge:

1. strips the surrounding whitespace, including the line ending;
2. skips the line if nothing is left;
3. ignores the line if it holds no `:`;
4. otherwise splits it at its first `:` into a key and a value, and publishes
   the value, unchanged, on the topic `{base}/{key lower-cased}`.

The base topic defaults to `garden/sensors` (`LineCodec.DEFAULT_BASE_TOPIC`).
The topic is joined with the `/` level separator of section 4.7 of MQTT
Version 3.1.1. The bridge's own code does not check that the result is a
valid topic name; see `Bridge.MqttClient.Publish` under "## Left out".

Modules:

- `Wrappers`: the `Option` type.
- `PyStr`: Python's `str.strip()` and `str.lower()`, restricted to ASCII. Each
  is characterised by its contract and a uniqueness lemma.
- `LineCodec`: the first `:` split, the topic, and `TranslateLine`, which maps
  one decoded serial line to the publication it causes, if any.
- `Bridge`: the read loop. `RunBridge` works over a finite sequence of decoded
  lines. An `MqttClient` object records each `publish` call in its
  `published` log. The loop is proved against the specification function
  `Publications`. Lemmas about `Publications` show that it makes one
  publication per publishing line, in input order, and none for any other
  line.

Some consequences of the code that a reader might not expect:

- A line with an empty key or an empty value is not rejected: `:5` is
  published as `5` on topic `{base}/`, and `TEMP:` as the empty payload on
  `{base}/temp` (`LineCodec.ExampleEmptyKey`, `LineCodec.ExampleEmptyValue`).
- Only the whole line is stripped, not the key and the value separately, so
  `A : b` publishes ` b` on topic `{base}/a ` (`LineCodec.TranslateLineOfReading`).
- Bytes that are not valid UTF-8 are not skipped: the decode error is not
  caught and ends `main()`. The model takes lines that are already decoded, so
  it has no such case.
- The bridge only reads from the serial port; it subscribes to no topic and
  writes nothing back to the device.

## Model

| member | source | states |
|---|---|---|
| `PyStr.Strip` | main.py:34 | `line.strip()`: the result neither starts nor ends with whitespace and is no longer than the line |
| `PyStr.StripSplits` | main.py:34 | every line is whitespace, then its stripped text, then whitespace |
| `PyStr.StripUnique` | main.py:34 | any split of a line into whitespace + unpadded text + whitespace has that text as `Strip` of the line, so `Strip` is fully determined |
| `PyStr.StripUnpadded` | main.py:34 | a line with no surrounding whitespace strips to itself |
| `PyStr.StripIdempotent` | main.py:34 | stripping twice is stripping once |
| `PyStr.StripEmptyIff` | main.py:34-35 | a line strips to the empty string exactly when every character of it is whitespace |
| `PyStr.SkipSpace` | main.py:34 | the scan for the first non-whitespace position: everything skipped is whitespace and the character where it stops is not |
| `PyStr.TextEnd` | main.py:34 | the scan back over trailing whitespace: everything dropped is whitespace and the last character kept is not |
| `PyStr.Lower` | main.py:41 | `key.lower()`: the result has no upper-case letter and equals the key up to letter case |
| `PyStr.LowerUnique` | main.py:41 | the only string that equals s up to case and has no upper-case letter is `Lower(s)` |
| `PyStr.LowerOfLowercase` | main.py:41 | lower-casing a string with no upper-case letter leaves it unchanged |
| `PyStr.LowerIdempotent` | main.py:41 | lower-casing twice is lower-casing once |
| `PyStr.LowerEqualIff` | main.py:41 | two keys lower-case to the same string exactly when they differ only in letter case |
| `LineCodec.FirstIndexOf` | main.py:40 | the position found holds the separator, and no earlier position does |
| `LineCodec.SplitOnce` | main.py:40 | `line.split(":", 1)`: the key has no `:`, and key + `:` + value gives back the line |
| `LineCodec.SplitOnceUnique` | main.py:40 | every way of writing the line as key + `:` + value, with no `:` in the key, is the split `SplitOnce` returns; the value may hold more `:`s |
| `LineCodec.SensorTopic` | main.py:41 | the topic is the base, then `/`, then the key with no upper-case letter left and otherwise unchanged |
| `LineCodec.SensorTopicSameIff` | main.py:41 | two keys get the same topic exactly when they differ only in letter case |
| `LineCodec.SensorTopicOfLowercase` | main.py:41 | a key already in lower case appears in its topic as it is |
| `LineCodec.TranslateLine` | main.py:34-42 | a line gives no publication exactly when its stripped text is empty or has no `:` |
| `LineCodec.TranslateLinePublishes` | main.py:39-42 | a publication comes from splitting the stripped line at a `:`: the key before it has no `:`, the payload is all of the text after it, the topic is the key's topic, and the topic begins with the base and `/` |
| `LineCodec.TranslateLineOfReading` | main.py:39-42 | a line that strips to key + `:` + value, with no `:` in the key, publishes exactly that value on the key's topic, including an empty key or an empty value |
| `LineCodec.TranslateLineBlank` | main.py:34-36 | a line of whitespace only publishes nothing |
| `LineCodec.TranslateLineIgnoresKeyCase` | main.py:41 | lines whose keys differ only in letter case, and whose values are the same, give the same publication |
| `LineCodec.TranslateLinePadded` | main.py:34-42 | a line written as whitespace + key + `:` + value + whitespace publishes the value on base + `/` + the lower-cased key |
| `LineCodec.TranslateLineNoSeparator` | main.py:34-39 | a line whose stripped text has no `:` publishes nothing |
| `LineCodec.ExampleTemperature` | main.py:38-42 | with the default base of main.py:18, `TEMP:25.3` is published on `garden/sensors/temp` with payload `25.3` |
| `LineCodec.ExamplePaddedSoil` | main.py:34-42 | `  SOIL:512\r\n` is published on `garden/sensors/soil` with payload `512` |
| `LineCodec.ExampleFurtherColons` | main.py:40 | `TIME:12:30` is split at its first `:` only, and publishes `12:30` on `{base}/time` |
| `LineCodec.ExampleEmptyKey` | main.py:39-42 | `:5` publishes `5` on `{base}/` |
| `LineCodec.ExampleEmptyValue` | main.py:39-42 | `TEMP:` publishes the empty payload on `{base}/temp` |
| `LineCodec.ExampleBlank` | main.py:35-36 | the empty line (what `readline` gives on timeout) publishes nothing |
| `LineCodec.ExampleLineEndingOnly` | main.py:34-36 | a line that is only `\r\n` publishes nothing |
| `LineCodec.ExampleNoSeparator` | main.py:39 | `READY\n` has no `:` and publishes nothing |
| `Bridge.MqttClient.constructor` | main.py:26 | a new client has published nothing |
| `Bridge.MqttClient.Publish` | main.py:42 | `client.publish(topic, val)` appends exactly that publication to the client's log; it never fails (see "## Left out") |
| `Bridge.Flatten` | main.py:33-43 | the publications of a run of per-line outcomes number at most one per line |
| `Bridge.RunBridge` | main.py:33-43 | after the read loop, the client's log is its old log followed by `Publications(base, lines)` |
| `Bridge.PublicationsStep` | main.py:33-43 | reading one more line appends that line's publication, if it has one, and nothing else |
| `Bridge.PresentInOrder` | main.py:33-43 | the publishing positions number one per publication, lie inside the input, and strictly increase |
| `Bridge.PresentSources` | main.py:33-43 | the k-th publication is the outcome of the k-th publishing position |
| `Bridge.PresentComplete` | main.py:33-43 | a position is a publishing position exactly when its outcome is a publication |
| `Bridge.PublicationsMatchLines` | main.py:33-43 | the k-th publication is `TranslateLine` of the k-th publishing line; those lines are in input order, each publishes once, and a line is one of them exactly when `TranslateLine` gives it a publication |
| `Bridge.PublicationsAtMostOnePerLine` | main.py:33-43 | the loop publishes at most once per line read |
| `Bridge.FlattenAppend` | main.py:33-43 | the publications of two runs of outcomes, one after the other, are those of the first run followed by those of the second |
| `Bridge.PublicationsAppend` | main.py:33-43 | reading a then b publishes what a publishes, then what b publishes |
| `Bridge.FlattenNone` | main.py:35-39 | outcomes that are all "no publication" publish nothing |
| `Bridge.SkippedLinesPublishNothing` | main.py:35-39 | lines that are all blank after stripping, or have no `:`, publish nothing |
| `Bridge.PublicationsAround` | main.py:33-43 | a line adds its own publication, and only it, between the publications of the lines before it and those after it |

## Left out

- Serial I/O (`serial.Serial`, `readline`, `close`, the 2-second timeout) and the 2-second `time.sleep` after opening the port are external library calls and timing. The port is modelled as a finite sequence of lines.
- `RunBridge` reads a finite sequence of lines. The source loop `while True` runs until it is interrupted or an exception escapes it, so any finite prefix of its run is covered, but the endless run itself is not.
- The MQTT transport (`mqtt.Client`, `connect`, `loop_start`, `loop_stop`, and the network effect of `publish`) is a foreign library with its own thread. `publish` is modelled as an append to the client's log; QoS and delivery are not modelled.
- Configuration from `.env` and `os.getenv`, and the `int(...)` parsing of the baud rate and port, is environment I/O. The base topic is a parameter, and its default is `DEFAULT_BASE_TOPIC`.
- UTF-8 decoding of the bytes read is left out; lines are taken already decoded. A decode error is not caught in the source and would end the loop. This model does not represent that case.
- The `print` logging, and the `KeyboardInterrupt`/`finally` shutdown (stop the MQTT loop, then close the port), are process control and side output.
- PyStr.Strip: treats as whitespace only the ASCII characters Python counts as whitespace (tab, line feed, vertical tab, form feed, carriage return, 0x1C to 0x1F, space). Python's `str.strip()` also strips non-ASCII whitespace such as U+0085 and U+00A0, which this model keeps.
- PyStr.Lower: folds only `A` to `Z`. Python's `str.lower()` also lower-cases non-ASCII letters, which this model leaves unchanged.
- Bridge.MqttClient.Publish: never fails. The MQTT client library's real `publish` (not part of this model) rejects a topic containing the wildcards `+` or `#`, a topic longer than 65535 bytes, or a payload longer than 268435455 bytes by raising `ValueError`. The bridge does not catch this exception (it catches only `KeyboardInterrupt`), so the exception ends the bridge after the `finally` shutdown. A serial line such as `A+B:5` therefore stops the real bridge, whereas the model publishes it and goes on. `Bridge.RunBridge` describes a real run only up to the first line whose topic or payload the library rejects.
