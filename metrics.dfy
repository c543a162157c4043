/** The Prometheus text-exposition fragment the exporter writes on every
    tick: a help comment, a type comment and one sample of the gauge
    `tcp_connections`, labelled with the monitored port. */
module Metrics {
  import opened Wrappers
  import opened GoStrings
  import opened LineScanner
  import opened Strconv

  /** The name of the gauge. */
  const MetricName: string := "tcp_connections"

  /** The help comment up to the port number. */
  const HelpText: string := "# HELP " + MetricName + " Number of open TCP" + " connections on port "

  /** The type comment, declaring the metric a gauge. */
  const TypeLine: string := "# TYPE " + MetricName + " gauge"

  /** The sample line starts with the metric name and opens the `port` label. */
  const SampleName: string := MetricName + "{port=\""

  /** What closes the label set of the sample line. */
  const LabelEnd: string := "\"}"

  /** The help comment naming the monitored port. */
  function HelpLine(port: int): string {
    HelpText + FormatInt(port)
  }

  /** The labelled metric name of the sample line. */
  function LabelledName(port: int): string {
    SampleName + FormatInt(port) + LabelEnd
  }

  /** The sample line: the labelled metric name and the count. */
  function SampleLine(port: int, count: int): string {
    LabelledName(port) + " " + FormatInt(count)
  }

  /** The text written to the metrics file for the monitored port and a
      count (the unavailable count included), built up line by line. */
  function MetricContent(port: int, count: int): (content: string)
    ensures |content| > 0 && content[|content| - 1] == '\n'
  {
    var content := HelpLine(port) + "\n";
    var content := content + TypeLine + "\n";
    content + SampleLine(port, count) + "\n"
  }

  /** The fragment is exactly three lines, each ended by a bare `\n`: the
      help comment naming the port, the type comment, and the sample. */
  lemma MetricContentLines(port: int, count: int)
    ensures var content := MetricContent(port, count);
            && content == Terminated([HelpLine(port), TypeLine, SampleLine(port, count)])
            && '\r' !in content
            && content[|content| - 1] == '\n'
            && Lines(content) == [
                 HelpText + FormatInt(port),
                 TypeLine,
                 SampleName + FormatInt(port) + LabelEnd + " " + FormatInt(count)]
  {
    var help, sample := HelpLine(port), SampleLine(port, count);
    HelpLinePlain(port);
    TypeLinePlain();
    SampleLinePlain(port, count);
    ThreeLines(help, TypeLine, sample);
    TerminatedThree(help, TypeLine, sample);
    NoCarriageReturn(port, count);
  }

  /** Three lines terminated one after the other. */
  lemma TerminatedThree(a: string, b: string, c: string)
    ensures Terminated([a, b, c]) == a + "\n" + b + "\n" + c + "\n"
  {
    assert [a, b, c][1..] == [b, c] && [b, c][1..] == [c] && [c][1..] == [];
    var tc := c + "\n";
    assert Terminated([c]) == tc;
    var tb := b + "\n" + tc;
    assert Terminated([b, c]) == tb;
    AppendAssoc(b + "\n", c, "\n");
    AppendAssoc(a + "\n", b + "\n" + c, "\n");
    AppendAssoc(a + "\n", b + "\n", c);
  }

  /** No line of the fragment holds a carriage return. */
  lemma NoCarriageReturn(port: int, count: int)
    ensures '\r' !in HelpLine(port) && '\r' !in TypeLine && '\r' !in SampleLine(port, count)
  {
    HelpTextFacts();
    NumberIsWord(port);
    NumberIsWord(count);
    LabelledNameIsWord(port);
    WordHasNoCR(FormatInt(port));
    WordHasNoCR(FormatInt(count));
    WordHasNoCR(LabelledName(port));
  }

  /** A carriage return is white space, so no word holds one. */
  lemma WordHasNoCR(w: string)
    requires IsWord(w)
    ensures '\r' !in w
  {
  }

  /** Three plain lines, each followed by a newline, scan back as those lines. */
  lemma ThreeLines(a: string, b: string, c: string)
    requires IsPlainLine(a) && IsPlainLine(b) && IsPlainLine(c)
    ensures var text := a + "\n" + b + "\n" + c + "\n";
            text[|text| - 1] == '\n' && Lines(text) == [a, b, c]
  {
    var x := a + "\n";
    var y := x + b + "\n";
    LinesOfLine(a);
    LinesSnoc(x, b);
    LinesSnoc(y, c);
    ListOfThree(Lines(y + c + "\n"), a, b, c);
  }

  lemma ListOfThree(ls: seq<string>, a: string, b: string, c: string)
    requires ls == [a] + [b] + [c]
    ensures ls == [a, b, c]
  {
  }

  /** What a scraper reads back from the fragment: the last field of the
      help comment is the port, and the sample line has two fields, the
      labelled metric name and the count. */
  lemma MetricContentReadBack(port: int, count: int)
    requires IsInt64(port) && IsInt64(count)
    ensures |Lines(MetricContent(port, count))| == 3
    ensures var help := Fields(Lines(MetricContent(port, count))[0]);
            |help| > 0 && Atoi(help[|help| - 1]) == Success(port)
    ensures var sample := Fields(Lines(MetricContent(port, count))[2]);
            sample == [SampleName + FormatInt(port) + LabelEnd, FormatInt(count)] &&
            Atoi(sample[1]) == Success(count)
  {
    MetricContentLines(port, count);
    HelpLineFields(port);
    SampleLineFields(port, count);
    AtoiFormatInt(port);
    AtoiFormatInt(count);
  }

  /** The last field of the help comment is the port. */
  lemma HelpLineFields(port: int)
    ensures Fields(HelpLine(port)) == Fields(HelpText) + [FormatInt(port)]
  {
    HelpTextFacts();
    NumberIsWord(port);
    FieldsConcat(HelpText, FormatInt(port));
    FieldsOfWord(FormatInt(port));
  }

  /** The sample line has two fields: the labelled name and the count. */
  lemma SampleLineFields(port: int, count: int)
    ensures Fields(SampleLine(port, count)) == [LabelledName(port), FormatInt(count)]
  {
    var name, value := LabelledName(port), FormatInt(count);
    LabelledNameIsWord(port);
    NumberIsWord(count);
    FieldsAfterWord(name, value);
    FieldsOfWord(value);
    ListOfTwo(Fields(SampleLine(port, count)), name, value);
  }

  lemma ListOfTwo(ls: seq<string>, a: string, b: string)
    requires ls == [a] + [b]
    ensures ls == [a, b]
  {
  }

  /** The help text holds no newline and ends in a space. */
  lemma HelpTextFacts()
    ensures '\n' !in HelpText && '\r' !in HelpText && IsSpace(HelpText[|HelpText| - 1])
  {
  }

  lemma HelpLinePlain(port: int)
    ensures IsPlainLine(HelpLine(port))
  {
    HelpTextFacts();
    EndsWithNumberIsPlain(HelpText, port);
  }

  lemma TypeLinePlain()
    ensures IsPlainLine(TypeLine)
  {
  }

  /** The labelled metric name is a single field. */
  lemma LabelledNameIsWord(port: int)
    ensures IsWord(LabelledName(port))
  {
    assert IsWord(SampleName) && IsWord(LabelEnd);
    NumberIsWord(port);
    WordConcat(SampleName, FormatInt(port));
    WordConcat(SampleName + FormatInt(port), LabelEnd);
  }

  lemma SampleLinePlain(port: int, count: int)
    ensures IsPlainLine(SampleLine(port, count))
  {
    LabelledNameIsWord(port);
    var name := LabelledName(port);
    assert '\n' !in name + " " by {
      assert forall k :: 0 <= k < |name| ==> (name + " ")[k] == name[k];
    }
    EndsWithNumberIsPlain(name + " ", count);
  }

  /** Two words written together are one word. */
  lemma WordConcat(a: string, b: string)
    requires IsWord(a) && IsWord(b)
    ensures IsWord(a + b)
  {
    assert forall k :: 0 <= k < |a + b| ==> (a + b)[k] == if k < |a| then a[k] else b[k - |a|];
  }

  /** A decimal number is one field. */
  lemma NumberIsWord(n: int)
    ensures IsWord(FormatInt(n))
  {
    var s := FormatInt(n);
    forall k | 0 <= k < |s|
      ensures !IsSpace(s[k])
    {
      assert IsDigit(s[k]) || s[k] == '-';
    }
  }

  /** Text without a newline followed by a number is a plain line. */
  lemma EndsWithNumberIsPlain(text: string, n: int)
    requires '\n' !in text
    ensures IsPlainLine(text + FormatInt(n))
  {
    NumberIsWord(n);
    var s := text + FormatInt(n);
    assert s[|s| - 1] == FormatInt(n)[|FormatInt(n)| - 1];
  }
}
