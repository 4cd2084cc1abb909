/**
 * The translation of one decoded serial line into the MQTT publication the
 * bridge makes for it: strip the line, skip it when blank or when it holds
 * no ':', otherwise split it at the first ':' into key and value and publish
 * the value on topic "{base}/{key lower-cased}".
 */
module LineCodec {
  import opened Wrappers
  import opened PyStr

  /** The separator between key and value on a serial line. */
  const SEPARATOR: char := ':'

  /** The MQTT topic level separator (section 4.7 of MQTT Version 3.1.1). */
  const LEVEL_SEPARATOR: char := '/'

  /** The base topic used when none is configured. */
  const DEFAULT_BASE_TOPIC: string := "garden/sensors"

  /** One call of the MQTT client's publish: a topic and its payload. */
  datatype Publication = Publication(topic: string, payload: string)

  /** The position of the first occurrence of c in s. */
  function FirstIndexOf(s: string, c: char): (i: nat)
    requires c in s
    ensures i < |s| && s[i] == c
    ensures c !in s[..i]
  {
    if s[0] == c then 0
    else
      var i := 1 + FirstIndexOf(s[1..], c);
      assert s[..i] == [s[0]] + s[1..][..i - 1];
      i
  }

  /** `line.split(":", 1)` on a line that holds a ':': the key holds no ':',
      and key, ':' and value put back together give the line. */
  function SplitOnce(line: string): (kv: (string, string))
    requires SEPARATOR in line
    ensures SEPARATOR !in kv.0
    ensures kv.0 + [SEPARATOR] + kv.1 == line
  {
    var i := FirstIndexOf(line, SEPARATOR);
    assert line == line[..i] + [SEPARATOR] + line[i + 1..];
    (line[..i], line[i + 1..])
  }

  /** Any way of writing a line as key + ':' + value with no ':' in the key
      is the one SplitOnce finds; the value may hold further ':'s. */
  lemma SplitOnceUnique(line: string, key: string, value: string)
    requires SEPARATOR !in key
    requires line == key + [SEPARATOR] + value
    ensures SplitOnce(line) == (key, value)
  {
    var i := FirstIndexOf(line, SEPARATOR);
    assert line[..|key|] == key && line[|key|] == SEPARATOR;
    assert line[i + 1..] == value;
  }

  /** The topic a reading with this key is published on:
      base, then '/', then the key lower-cased. */
  function SensorTopic(base: string, key: string): (topic: string)
    ensures |topic| == |base| + 1 + |key|
    ensures topic[..|base| + 1] == base + [LEVEL_SEPARATOR]
    ensures NoUpper(topic[|base| + 1..])
    ensures EqualIgnoringCase(key, topic[|base| + 1..])
  {
    var topic := base + [LEVEL_SEPARATOR] + Lower(key);
    assert topic[|base| + 1..] == Lower(key);
    topic
  }

  /** Two keys share a topic exactly when they differ only in letter case. */
  lemma SensorTopicSameIff(base: string, key1: string, key2: string)
    ensures SensorTopic(base, key1) == SensorTopic(base, key2)
        <==> EqualIgnoringCase(key1, key2)
  {
    LowerEqualIff(key1, key2);
    var t1, t2 := SensorTopic(base, key1), SensorTopic(base, key2);
    if t1 == t2 {
      assert Lower(key1) == t1[|base| + 1..] == t2[|base| + 1..] == Lower(key2);
    }
  }

  /** A key already in lower case appears in its topic unchanged. */
  lemma SensorTopicOfLowercase(base: string, key: string)
    requires NoUpper(key)
    ensures SensorTopic(base, key) == base + [LEVEL_SEPARATOR] + key
  {
    LowerOfLowercase(key);
  }

  /** What the read loop does with one decoded serial line: no publication
      when the stripped line is empty or holds no ':', otherwise the value
      after the first ':' published on the key's topic. */
  function TranslateLine(base: string, raw: string): (r: Option<Publication>)
    ensures r.None? <==> Strip(raw) == [] || SEPARATOR !in Strip(raw)
  {
    var line := Strip(raw);
    if line == [] then None
    else if SEPARATOR !in line then None
    else
      var (key, value) := SplitOnce(line);
      Some(Publication(SensorTopic(base, key), value))
  }

  /** A publication splits the stripped line at a ':': the key before it
      holds no ':', the payload is everything after it, and the topic is the
      key's topic, so it starts with the base topic and '/'. */
  lemma TranslateLinePublishes(base: string, raw: string)
    requires TranslateLine(base, raw).Some?
    ensures exists key ::
      && SEPARATOR !in key
      && Strip(raw) == key + [SEPARATOR] + TranslateLine(base, raw).value.payload
      && TranslateLine(base, raw).value.topic == SensorTopic(base, key)
    ensures TranslateLine(base, raw).value.topic[..|base| + 1] == base + [LEVEL_SEPARATOR]
  {
    var (key, value) := SplitOnce(Strip(raw));
    assert SensorTopic(base, key)[..|base| + 1] == base + [LEVEL_SEPARATOR];
  }

  /** The converse of TranslateLine's contract: a line that strips to
      key + ':' + value, with no ':' in the key, publishes exactly the value,
      unchanged, on the key's topic. Empty keys and values included. */
  lemma TranslateLineOfReading(base: string, raw: string, key: string, value: string)
    requires SEPARATOR !in key
    requires Strip(raw) == key + [SEPARATOR] + value
    ensures TranslateLine(base, raw) == Some(Publication(SensorTopic(base, key), value))
  {
    assert Strip(raw)[|key|] == SEPARATOR;
    SplitOnceUnique(Strip(raw), key, value);
  }

  /** A line that is only whitespace publishes nothing. */
  lemma TranslateLineBlank(base: string, raw: string)
    requires AllSpace(raw)
    ensures TranslateLine(base, raw) == None
  {
    StripEmptyIff(raw);
  }

  /** Keys that differ only in letter case are published on the same topic. */
  lemma TranslateLineIgnoresKeyCase(base: string, raw1: string, raw2: string,
                                    key1: string, key2: string, value: string)
    requires SEPARATOR !in key1 && SEPARATOR !in key2
    requires Strip(raw1) == key1 + [SEPARATOR] + value
    requires Strip(raw2) == key2 + [SEPARATOR] + value
    requires EqualIgnoringCase(key1, key2)
    ensures TranslateLine(base, raw1) == TranslateLine(base, raw2)
  {
    TranslateLineOfReading(base, raw1, key1, value);
    TranslateLineOfReading(base, raw2, key2, value);
    SensorTopicSameIff(base, key1, key2);
  }

  /** TranslateLineOfReading for a line given as whitespace, key, ':',
      value and whitespace, with the lower-cased key spelled out. */
  lemma TranslateLinePadded(base: string, raw: string, front: string, key: string,
                            value: string, back: string, lowered: string)
    requires raw == front + key + [SEPARATOR] + value + back
    requires AllSpace(front) && AllSpace(back) && Unpadded(key + [SEPARATOR] + value)
    requires SEPARATOR !in key
    requires EqualIgnoringCase(key, lowered) && NoUpper(lowered)
    ensures TranslateLine(base, raw) == Some(Publication(base + [LEVEL_SEPARATOR] + lowered, value))
  {
    StripUnique(raw, front, key + [SEPARATOR] + value, back);
    TranslateLineOfReading(base, raw, key, value);
    LowerUnique(key, lowered);
  }

  /** A line whose stripped text holds no ':' publishes nothing. */
  lemma TranslateLineNoSeparator(base: string, raw: string, front: string, line: string, back: string)
    requires raw == front + line + back
    requires AllSpace(front) && AllSpace(back) && Unpadded(line)
    requires SEPARATOR !in line
    ensures TranslateLine(base, raw) == None
  {
    StripUnique(raw, front, line, back);
  }

  /** "TEMP:25.3" under the default base is published on
      "garden/sensors/temp" with payload "25.3". */
  lemma ExampleTemperature()
    ensures TranslateLine(DEFAULT_BASE_TOPIC, "TEMP:25.3")
         == Some(Publication("garden/sensors/temp", "25.3"))
  {
    assert DEFAULT_BASE_TOPIC + [LEVEL_SEPARATOR] + "temp" == "garden/sensors/temp";
    TranslateLinePadded(DEFAULT_BASE_TOPIC, "TEMP:25.3", "", "TEMP", "25.3", "", "temp");
  }

  /** The line terminator and padding are stripped before the split:
      "  SOIL:512\r\n" is published on "garden/sensors/soil" as "512". */
  lemma ExamplePaddedSoil()
    ensures TranslateLine(DEFAULT_BASE_TOPIC, "  SOIL:512\r\n")
         == Some(Publication("garden/sensors/soil", "512"))
  {
    assert DEFAULT_BASE_TOPIC + [LEVEL_SEPARATOR] + "soil" == "garden/sensors/soil";
    TranslateLinePadded(DEFAULT_BASE_TOPIC, "  SOIL:512\r\n", "  ", "SOIL", "512", "\r\n", "soil");
  }

  /** Only the first ':' splits: "TIME:12:30" publishes "12:30". */
  lemma ExampleFurtherColons(base: string)
    ensures TranslateLine(base, "TIME:12:30") == Some(Publication(base + [LEVEL_SEPARATOR] + "time", "12:30"))
  {
    TranslateLinePadded(base, "TIME:12:30", "", "TIME", "12:30", "", "time");
  }

  /** An empty key is not rejected: ":5" publishes "5" on "{base}/". */
  lemma ExampleEmptyKey(base: string)
    ensures TranslateLine(base, ":5") == Some(Publication(base + [LEVEL_SEPARATOR], "5"))
  {
    TranslateLinePadded(base, ":5", "", "", "5", "", "");
    assert base + [LEVEL_SEPARATOR] + "" == base + [LEVEL_SEPARATOR];
  }

  /** An empty value is not rejected: "TEMP:" publishes "" on "{base}/temp". */
  lemma ExampleEmptyValue(base: string)
    ensures TranslateLine(base, "TEMP:") == Some(Publication(base + [LEVEL_SEPARATOR] + "temp", ""))
  {
    TranslateLinePadded(base, "TEMP:", "", "TEMP", "", "", "temp");
  }

  /** A blank line publishes nothing. */
  lemma ExampleBlank(base: string)
    ensures TranslateLine(base, "") == None
  {
    TranslateLineNoSeparator(base, "", "", "", "");
  }

  /** A line that is only a line ending publishes nothing. */
  lemma ExampleLineEndingOnly(base: string)
    ensures TranslateLine(base, "\r\n") == None
  {
    TranslateLineNoSeparator(base, "\r\n", "\r\n", "", "");
  }

  /** A line without ':' publishes nothing. */
  lemma ExampleNoSeparator(base: string)
    ensures TranslateLine(base, "READY\n") == None
  {
    TranslateLineNoSeparator(base, "READY\n", "", "READY", "\n");
  }
}
