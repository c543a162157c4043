/** The line splitting that a `bufio.Scanner` with its default `ScanLines`
    split function performs: a line ends at `\n`, one `\r` right before the
    end of a line is dropped, and text after the last `\n` is a final line
    when it is not empty. */
module LineScanner {
  import opened GoStrings

  /** A line with one trailing carriage return removed, if it has one. */
  function DropCR(line: string): (r: string)
    ensures r == line || (r + "\r" == line)
  {
    if |line| > 0 && line[|line| - 1] == '\r' then line[..|line| - 1] else line
  }

  /** One step of the scanner: the next line and the text after it. */
  function NextLine(s: string): (r: (string, string))
    requires s != []
    ensures |r.1| < |s|
  {
    var i := IndexOf(s, '\n');
    if i < |s| then (DropCR(s[..i]), s[i + 1..]) else (DropCR(s), [])
  }

  /** The lines the scanner yields for the whole text `s`, in order. */
  function Lines(s: string): (ls: seq<string>)
    ensures |ls| <= |s|
    decreases |s|
  {
    if s == [] then [] else [NextLine(s).0] + Lines(NextLine(s).1)
  }

  /** No scanned line contains a newline, and a non-empty text without one
      is a single line, with one trailing carriage return removed. */
  lemma {:induction false} LinesShape(s: string)
    ensures forall k :: 0 <= k < |Lines(s)| ==> '\n' !in Lines(s)[k]
    ensures s != [] && '\n' !in s ==> Lines(s) == [DropCR(s)]
    decreases |s|
  {
    if s != [] {
      var i := IndexOf(s, '\n');
      var next := NextLine(s);
      assert '\n' !in next.0 by {
        if i < |s| {
          assert forall k :: 0 <= k < i ==> s[..i][k] == s[k];
        }
      }
      LinesShape(next.1);
    }
  }

  /** A line that the scanner reproduces exactly: no newline in it and no
      carriage return at its end. */
  predicate IsPlainLine(line: string) {
    '\n' !in line && (line == [] || line[|line| - 1] != '\r')
  }

  /** The text made of the given lines, each followed by `\n`. */
  function Terminated(lines: seq<string>): string {
    if lines == [] then [] else lines[0] + "\n" + Terminated(lines[1..])
  }

  /** Each line with one trailing carriage return removed. */
  function DropCRs(lines: seq<string>): seq<string> {
    if lines == [] then [] else [DropCR(lines[0])] + DropCRs(lines[1..])
  }

  /** `DropCRs` works line by line. */
  lemma {:induction false} DropCRsAt(lines: seq<string>, k: nat)
    requires k < |lines|
    ensures |DropCRs(lines)| == |lines| && DropCRs(lines)[k] == DropCR(lines[k])
  {
    if k > 0 {
      DropCRsAt(lines[1..], k - 1);
    } else if |lines| > 1 {
      DropCRsAt(lines[1..], 0);
    }
  }

  /** Scanning newline-terminated lines gives the lines back, each without
      the carriage return it may end with. */
  lemma {:induction false} LinesTerminatedCR(lines: seq<string>)
    requires forall k :: 0 <= k < |lines| ==> '\n' !in lines[k]
    ensures Lines(Terminated(lines)) == DropCRs(lines)
  {
    if lines != [] {
      var line, rest := lines[0], Terminated(lines[1..]);
      LinesOfLine(line);
      LinesAppend(line + "\n", rest);
      LinesTerminatedCR(lines[1..]);
    }
  }

  /** Scanning newline-terminated plain lines gives the lines back. */
  lemma LinesTerminated(lines: seq<string>)
    requires forall k :: 0 <= k < |lines| ==> IsPlainLine(lines[k])
    ensures Lines(Terminated(lines)) == lines
  {
    LinesTerminatedCR(lines);
    DropCRsPlain(lines);
  }

  lemma {:induction false} DropCRsPlain(lines: seq<string>)
    requires forall k :: 0 <= k < |lines| ==> IsPlainLine(lines[k])
    ensures DropCRs(lines) == lines
  {
    if lines != [] {
      DropCRsPlain(lines[1..]);
    }
  }

  /** Dropping a trailing carriage return does not change the fields of a line. */
  lemma FieldsDropCR(line: string)
    ensures Fields(DropCR(line)) == Fields(line)
  {
    if DropCR(line) != line {
      var x := DropCR(line);
      assert line == x + "\r";
      FieldsConcat(x, "\r");
      assert "\r"[1..] == [];
    }
  }

  /** A line without a newline, followed by one, is scanned as that line
      less the carriage return it may end with. */
  lemma LinesOfLine(line: string)
    requires '\n' !in line
    ensures Lines(line + "\n") == [DropCR(line)]
  {
    var s := line + "\n";
    assert forall k :: 0 <= k < |line| ==> s[k] == line[k];
    IndexOfIs(s, '\n', |line|);
    assert s[..|line|] == line;
    assert s[|line| + 1..] == [];
  }

  /** Appending one more newline-terminated line to text that ends at a line
      boundary appends that line to the scanned lines. */
  lemma LinesSnoc(text: string, line: string)
    requires text == [] || text[|text| - 1] == '\n'
    requires IsPlainLine(line)
    ensures var more := text + line + "\n";
            more[|more| - 1] == '\n' && Lines(more) == Lines(text) + [line]
  {
    AppendAssoc(text, line, "\n");
    LinesAppend(text, line + "\n");
    LinesOfLine(line);
  }

  /** Text that is empty or ends with a newline leaves the scanner at a line
      boundary, so what follows it is scanned on its own. */
  lemma {:induction false} LinesAppend(a: string, b: string)
    requires a == [] || a[|a| - 1] == '\n'
    ensures Lines(a + b) == Lines(a) + Lines(b)
    decreases |a|
  {
    if a == [] {
      assert a + b == b;
    } else {
      var line, rest := FirstLineOfTerminated(a, b);
      LinesAppend(rest, b);
      AppendAssoc([line], Lines(rest), Lines(b));
    }
  }

  /** The first line of a newline-terminated text `a` is also the first line
      of `a + b`, and what follows it is the rest of `a` and then `b`. */
  lemma FirstLineOfTerminated(a: string, b: string) returns (line: string, rest: string)
    requires a != [] && a[|a| - 1] == '\n'
    ensures |rest| < |a| && (rest == [] || rest[|rest| - 1] == '\n')
    ensures Lines(a) == [line] + Lines(rest)
    ensures Lines(a + b) == [line] + Lines(rest + b)
  {
    var i := IndexOf(a, '\n');
    assert i < |a|;
    line, rest := DropCR(a[..i]), a[i + 1..];
    if rest != [] {
      assert rest[|rest| - 1] == a[|a| - 1];
    }
    IndexOfConcat(a, b, '\n');
    SliceConcat(a, b, i);
    SliceConcat(a, b, i + 1);
    assert NextLine(a + b) == (line, rest + b);
  }

  /** A line ended by `\r\n` is scanned without its carriage return. */
  lemma LinesDropCR(line: string)
    requires IsPlainLine(line)
    ensures Lines(line + "\r\n") == [line]
  {
    var s := line + "\r\n";
    assert s[|line| + 1] == '\n';
    assert forall k :: 0 <= k <= |line| ==> s[k] != '\n';
    assert IndexOf(s, '\n') == |line| + 1;
    assert s[..|line| + 1] == line + "\r";
    assert s[|line| + 2..] == [];
  }
}
