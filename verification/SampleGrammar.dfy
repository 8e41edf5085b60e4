/**
 The grammar of a sample line: what is read from a line put together from its parts, and when a line is refused.
 */
module SampleGrammar {
  import opened Text
  import opened NumberText
  import opened PrometheusText

  /** Optional labels in braces. */
  function LabelText(labelled: bool, labels: string): string { if labelled then "{" + labels + "}" else "" }

  lemma LabelsRead(labelled: bool, labels: string, rest: string)
    requires All(labels, NotCloseBrace) && (!labelled ==> labels == "" && (rest == "" || rest[0] != '{'))
    ensures LabelPart(LabelText(labelled, labels) + rest) == Ok((labels, rest))
  {
    var r := LabelText(labelled, labels) + rest;
    if labelled {
      assert r[1..] == labels + ("}" + rest);
      TakeSeam(labels, "}" + rest, NotCloseBrace);
      assert ("}" + rest)[1..] == rest;
    } else {
      assert r == rest;
    }
  }

  lemma ValueRead(ws: string, v: string, tail: string)
    requires All(ws, IsSpace) && v != "" && All(v, NotSpace) && (tail == "" || IsSpace(tail[0]))
    ensures ValuePart(ws + (v + tail)) == match ParseNum(v) case None => Err("invalid sample value") case Some(x) => Ok(x)
  {
    hide ParseNum;
    assert (v + tail)[0] == v[0];
    SpanIs(ws + (v + tail), IsSpace, |ws|);
    assert DropSpace(ws + (v + tail)) == v + tail;
    TakeSeam(v, tail, NotSpace);
  }

  lemma NameRead(name: string, rest: string)
    requires All(name, IsNameChar) && (rest == "" || !IsNameChar(rest[0]))
    ensures Take(name + rest, IsNameChar) == name && Rest(name + rest, IsNameChar) == rest
  {
    TakeSeam(name, rest, IsNameChar);
  }

  lemma SpaceIsNoNameChar(c: char)
    ensures IsSpace(c) || c == '{' ==> !IsNameChar(c)
  {
  }

  /** The text behind the name starts with something that is no part of it. */
  lemma AfterName(labelled: bool, labels: string, ws: string, rest: string)
    requires All(ws, IsSpace) && (labelled || ws != "" || rest == "")
    ensures var r := LabelText(labelled, labels) + (ws + rest); r == "" || !IsNameChar(r[0])
  {
    var r := LabelText(labelled, labels) + (ws + rest);
    if r != "" { SpaceIsNoNameChar(r[0]); }
  }

  /**
   A sample line: a name, labels up to the first closing brace, white space, and a word that is the value; a time stamp
   or anything else behind the value is ignored. Without braces the white space is what ends the name.
   */
  lemma {:induction false} SampleRead(name: string, labelled: bool, labels: string, ws: string, v: string, tail: string)
    requires name != "" && All(name, IsNameChar) && All(labels, NotCloseBrace) && (!labelled ==> labels == "")
    requires All(ws, IsSpace) && (labelled || ws != "")
    requires v != "" && All(v, NotSpace) && (tail == "" || IsSpace(tail[0]))
    ensures ParseSample(name + (LabelText(labelled, labels) + (ws + (v + tail))))
            == match ParseNum(v)
               case None => Err("invalid sample value")
               case Some(x) => Ok(Sample(name, labels, x))
  {
    hide ParseNum, LabelPart, ValuePart, LabelText, Take, Rest;
    var rest := ws + (v + tail);
    NonemptyAfter(ws, v + tail);
    assert labelled || (rest[0] == ws[0] && IsSpace(rest[0]));
    AfterName(labelled, labels, ws, v + tail);
    NameRead(name, LabelText(labelled, labels) + rest);
    LabelsRead(labelled, labels, rest);
    ValueRead(ws, v, tail);
  }

  lemma NonemptyAfter(ws: string, t: string)
    ensures |ws + t| >= |ws| && (ws != "" ==> (ws + t)[0] == ws[0])
  {
  }

  /** A line that does not start with a name character has no name. */
  lemma NoName(line: string)
    requires line == "" || !IsNameChar(line[0])
    ensures ParseSample(line) == Err("missing metric name")
  {
  }

  /** A brace that is never closed. */
  lemma Unclosed(name: string, labels: string)
    requires name != "" && All(name, IsNameChar) && All(labels, NotCloseBrace)
    ensures ParseSample(name + ("{" + labels)) == Err("unclosed label set")
  {
    var r := "{" + labels;
    SpaceIsNoNameChar(r[0]);
    NameRead(name, r);
    assert r[1..] == labels;
    TakeAll(labels, NotCloseBrace);
  }

  /** Nothing but white space behind the name or the labels. */
  lemma NoValue(name: string, labelled: bool, labels: string, ws: string)
    requires name != "" && All(name, IsNameChar) && All(labels, NotCloseBrace) && (!labelled ==> labels == "")
    requires All(ws, IsSpace)
    ensures ParseSample(name + (LabelText(labelled, labels) + ws)) == Err("missing sample value")
  {
    hide LabelPart, LabelText, Take, Rest;
    assert ws + "" == ws;
    AfterName(labelled, labels, ws, "");
    NameRead(name, LabelText(labelled, labels) + ws);
    LabelsRead(labelled, labels, ws);
    SpanIs(ws, IsSpace, |ws|);
  }
}
