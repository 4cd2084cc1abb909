/**
 * The bridge's read loop: every line read from the serial port is stripped,
 * skipped when blank or without ':', and otherwise published to the MQTT
 * client. The serial port is a finite sequence of already-decoded lines and
 * the MQTT client is a log of the publications made on it.
 */
module Bridge {
  import opened Wrappers
  import opened PyStr
  import opened LineCodec

  /** The MQTT client as the read loop sees it: publish records a topic and
      its payload, in call order. */
  class MqttClient {
    var published: seq<Publication>

    constructor ()
      ensures published == []
    {
      published := [];
    }

    method Publish(topic: string, payload: string)
      modifies this
      ensures published == old(published) + [Publication(topic, payload)]
    {
      published := published + [Publication(topic, payload)];
    }
  }

  /** The publications, zero or one, that one line contributes. */
  function Emitted(r: Option<Publication>): seq<Publication> {
    match r
    case None => []
    case Some(p) => [p]
  }

  /** The publications of a series of per-line outcomes, in order. */
  function Flatten(outs: seq<Option<Publication>>): (log: seq<Publication>)
    ensures |log| <= |outs|
  {
    if outs == [] then []
    else Flatten(outs[..|outs| - 1]) + Emitted(outs[|outs| - 1])
  }

  /** What TranslateLine gives each line, line by line. */
  function Outcomes(base: string, lines: seq<string>): seq<Option<Publication>> {
    seq(|lines|, i requires 0 <= i < |lines| => TranslateLine(base, lines[i]))
  }

  /** Everything the read loop publishes for these lines, in reading order. */
  function Publications(base: string, lines: seq<string>): seq<Publication> {
    Flatten(Outcomes(base, lines))
  }

  /** Reading one more line appends that line's outcome. */
  lemma PublicationsStep(base: string, lines: seq<string>, i: nat)
    requires i < |lines|
    ensures Publications(base, lines[..i + 1])
         == Publications(base, lines[..i]) + Emitted(TranslateLine(base, lines[i]))
  {
    var before, outcome := Outcomes(base, lines[..i]), TranslateLine(base, lines[i]);
    assert Outcomes(base, lines[..i + 1]) == before + [outcome];
    assert (before + [outcome])[..i] == before;
  }

  /** The loop `while True: line = readline().strip(); ...` run over the
      given lines: afterwards the client has published exactly
      Publications(base, lines) after whatever it held before. */
  method RunBridge(base: string, lines: seq<string>, client: MqttClient)
    modifies client
    ensures client.published == old(client.published) + Publications(base, lines)
  {
    for i := 0 to |lines|
      invariant client.published == old(client.published) + Publications(base, lines[..i])
    {
      PublicationsStep(base, lines, i);
      ghost var before := old(client.published) + Publications(base, lines[..i]);
      ghost var outcome := TranslateLine(base, lines[i]);
      assert old(client.published) + Publications(base, lines[..i + 1]) == before + Emitted(outcome);
      var line := Strip(lines[i]);
      if line == [] {
        assert Emitted(outcome) == [] && before + [] == before;
        continue;
      }
      if SEPARATOR in line {
        var (key, value) := SplitOnce(line);
        var topic := SensorTopic(base, key);
        client.Publish(topic, value);
        TranslateLineOfReading(base, lines[i], key, value);
        assert Emitted(outcome) == [Publication(topic, value)];
      } else {
        assert Emitted(outcome) == [] && before + [] == before;
      }
    }
    assert lines[..|lines|] == lines;
  }

  /** The positions of the outcomes that publish, in increasing order. */
  function Present(outs: seq<Option<Publication>>): seq<nat> {
    if outs == [] then []
    else Present(outs[..|outs| - 1]) + (if outs[|outs| - 1].Some? then [|outs| - 1] else [])
  }

  /** There is one present position per publication; present positions lie
      inside outs and increase. */
  lemma {:induction false} PresentInOrder(outs: seq<Option<Publication>>)
    ensures |Present(outs)| == |Flatten(outs)|
    ensures forall k :: 0 <= k < |Present(outs)| ==> Present(outs)[k] < |outs|
    ensures forall k, l :: 0 <= k < l < |Present(outs)| ==> Present(outs)[k] < Present(outs)[l]
  {
    if outs != [] {
      PresentInOrder(outs[..|outs| - 1]);
    }
  }

  /** The k-th publication of Flatten is the outcome at the k-th present
      position. */
  lemma {:induction false} PresentSources(outs: seq<Option<Publication>>)
    ensures |Present(outs)| == |Flatten(outs)|
    ensures forall k :: 0 <= k < |Present(outs)| ==>
      Present(outs)[k] < |outs| && outs[Present(outs)[k]] == Some(Flatten(outs)[k])
  {
    PresentInOrder(outs);
    if outs != [] {
      var n := |outs|;
      var front := outs[..n - 1];
      PresentSources(front);
      var p, q, p', q' := Present(outs), Flatten(outs), Present(front), Flatten(front);
      forall k | 0 <= k < |p'|
        ensures outs[p[k]] == Some(q[k])
      {
        assert p[k] == p'[k] && q[k] == q'[k];
        assert outs[p'[k]] == front[p'[k]];
      }
    }
  }

  /** A position is present exactly when its outcome is a publication. */
  lemma {:induction false} PresentComplete(outs: seq<Option<Publication>>)
    ensures forall i :: 0 <= i < |outs| ==> (outs[i].Some? <==> i in Present(outs))
  {
    if outs != [] {
      var n := |outs|;
      var front := outs[..n - 1];
      PresentComplete(front);
      PresentInOrder(front);
      var p, p' := Present(outs), Present(front);
      forall i | 0 <= i < n
        ensures outs[i].Some? <==> i in p
      {
        if i < n - 1 {
          assert outs[i] == front[i];
          assert i in p <==> i in p';
        } else {
          assert n - 1 !in p';
        }
      }
    }
  }

  /** The line numbers that publish, in increasing order. */
  function PublishingLines(base: string, lines: seq<string>): seq<nat> {
    Present(Outcomes(base, lines))
  }

  /** The k-th publication comes from the k-th publishing line; those lines
      are in input order, each publishes once, and a line is among them
      exactly when TranslateLine gives it a publication. */
  lemma PublicationsMatchLines(base: string, lines: seq<string>)
    ensures |PublishingLines(base, lines)| == |Publications(base, lines)|
    ensures forall k :: 0 <= k < |PublishingLines(base, lines)| ==>
      PublishingLines(base, lines)[k] < |lines|
      && TranslateLine(base, lines[PublishingLines(base, lines)[k]])
         == Some(Publications(base, lines)[k])
    ensures forall k, l :: 0 <= k < l < |PublishingLines(base, lines)| ==>
      PublishingLines(base, lines)[k] < PublishingLines(base, lines)[l]
    ensures forall i :: 0 <= i < |lines| ==>
      (TranslateLine(base, lines[i]).Some? <==> i in PublishingLines(base, lines))
  {
    var outs := Outcomes(base, lines);
    PresentInOrder(outs);
    PresentSources(outs);
    PresentComplete(outs);
  }

  /** At most one publication per line. */
  lemma PublicationsAtMostOnePerLine(base: string, lines: seq<string>)
    ensures |Publications(base, lines)| <= |lines|
  {
  }

  /** Flatten distributes over concatenation. */
  lemma {:induction false} FlattenAppend(a: seq<Option<Publication>>, b: seq<Option<Publication>>)
    ensures Flatten(a + b) == Flatten(a) + Flatten(b)
  {
    if b == [] {
      assert a + b == a;
    } else {
      var front := b[..|b| - 1];
      assert (a + b)[..|a + b| - 1] == a + front;
      assert (a + b)[|a + b| - 1] == b[|b| - 1];
      FlattenAppend(a, front);
    }
  }

  /** Reading a + b publishes what reading a publishes, then what reading b
      publishes. */
  lemma PublicationsAppend(base: string, a: seq<string>, b: seq<string>)
    ensures Publications(base, a + b) == Publications(base, a) + Publications(base, b)
  {
    assert Outcomes(base, a + b) == Outcomes(base, a) + Outcomes(base, b);
    FlattenAppend(Outcomes(base, a), Outcomes(base, b));
  }

  /** Outcomes that are all None publish nothing. */
  lemma {:induction false} FlattenNone(outs: seq<Option<Publication>>)
    requires forall i :: 0 <= i < |outs| ==> outs[i].None?
    ensures Flatten(outs) == []
  {
    if outs != [] {
      FlattenNone(outs[..|outs| - 1]);
    }
  }

  /** Lines that are blank after stripping, or hold no ':', publish nothing. */
  lemma SkippedLinesPublishNothing(base: string, lines: seq<string>)
    requires forall i :: 0 <= i < |lines| ==>
      Strip(lines[i]) == [] || SEPARATOR !in Strip(lines[i])
    ensures Publications(base, lines) == []
  {
    FlattenNone(Outcomes(base, lines));
  }

  /** A line, wherever it stands, adds exactly its own outcome between the
      publications of the lines before and after it. */
  lemma PublicationsAround(base: string, before: seq<string>, raw: string, after: seq<string>)
    ensures Publications(base, before + [raw] + after)
         == Publications(base, before) + Emitted(TranslateLine(base, raw)) + Publications(base, after)
  {
    PublicationsAppend(base, before + [raw], after);
    PublicationsAppend(base, before, [raw]);
    var outcome := TranslateLine(base, raw);
    assert Publications(base, [raw]) == Emitted(outcome) by {
      assert Outcomes(base, [raw]) == [outcome];
      assert [outcome][..0] == [];
    }
  }
}
