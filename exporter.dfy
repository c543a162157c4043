/** The TCP connection exporter: it counts the connections whose remote
    port is the monitored port in the output of `netstat -tan` (the protocol
    column is not read, so `tcp6` lines count as well), and renders
    the count as a three-line Prometheus text-exposition fragment. The
    output of the command is a parameter (`None` when it could not be run),
    and so is the value of the `CONSUL_PORT` environment variable. */
module Exporter {
  import opened Wrappers
  import opened GoStrings
  import opened LineScanner
  import opened Strconv

  /** The port monitored when `CONSUL_PORT` is unset or not a number. */
  const DefaultConsulPort: int := 8500

  /** The count reported when `netstat` could not be run. */
  const Unavailable: int := -1

  /** Lines with fewer fields than this are not connection lines. */
  const MinFieldCount: nat := 6

  /** The columns of a `netstat -tan` connection line that the exporter reads. */
  const RemoteAddressField: nat := 4
  const StateField: nat := 5

  /** The one state in which a connection to the port is not counted. */
  const TimeWait: string := "TIME_WAIT"

  // ---------------------------------------------------------------------
  // Configuration

  /** The monitored port: the value of `CONSUL_PORT` when it is set and is a
      number, the default port otherwise. */
  function ConfiguredPort(consulPort: Option<string>): (port: int)
    ensures IsInt64(port)
    ensures consulPort.Some? && Atoi(consulPort.value).Success? ==> port == Atoi(consulPort.value).value
    ensures consulPort.None? || Atoi(consulPort.value).Failure? ==> port == DefaultConsulPort
  {
    match consulPort
    case None => DefaultConsulPort
    case Some(text) =>
      match Atoi(text)
      case Success(port) => port
      case Failure(_) => DefaultConsulPort
  }

  /** Any port written in decimal is the port configured. */
  lemma ConfiguredPortFormatted(port: int)
    requires IsInt64(port)
    ensures ConfiguredPort(Some(FormatInt(port))) == port
  {
    AtoiFormatInt(port);
  }

  /** A value with white space anywhere in it is not trimmed: it falls back
      to the default port. */
  lemma ConfiguredPortUntrimmed(text: string, k: nat)
    requires k < |text| && IsSpace(text[k])
    ensures ConfiguredPort(Some(text)) == DefaultConsulPort
  {
    assert !IsDigit(text[k]);
    if k > 0 {
      assert text[1..][k - 1] == text[k];
    }
  }

  // ---------------------------------------------------------------------
  // Port extraction

  /** Why an address yields no port. */
  datatype PortError =
    | InvalidAddressFormat(address: string)
    | InvalidPort(cause: NumError)

  /** The port of an address: the text after its last colon, read by `Atoi`. */
  function ExtractIPv4Port(address: string): (r: Result<int, PortError>)
    ensures r == Failure(InvalidAddressFormat(address)) <==> ':' !in address
    ensures r.Success? ==> IsInt64(r.value)
  {
    SplitShape(address, ':');
    var parts := Split(address, ':');
    if |parts| < 2 then Failure(InvalidAddressFormat(address))
    else
      match Atoi(parts[|parts| - 1])
      case Success(port) => Success(port)
      case Failure(e) => Failure(InvalidPort(e))
  }

  /** Whatever comes before the last colon, the port is `Atoi` of what follows it. */
  lemma ExtractIPv4PortLastColon(host: string, portText: string)
    requires ':' !in portText
    ensures ExtractIPv4Port(host + ":" + portText).Success? <==> Atoi(portText).Success?
    ensures Atoi(portText).Success? ==> ExtractIPv4Port(host + ":" + portText).value == Atoi(portText).value
  {
    SplitLast(host, ':', portText);
  }

  /** A numeric port after the colon is read. */
  lemma ExtractIPv4PortOfLoopback()
    ensures ExtractIPv4Port("127.0.0.1:8500") == Success(8500)
  {
    assert "127.0.0.1:8500" == "127.0.0.1" + ":" + "8500";
    AtoiPort8500();
    ExtractIPv4PortLastColon("127.0.0.1", "8500");
  }

  /** Only the text after the last colon is read, however many colons precede it. */
  lemma ExtractIPv4PortOfMappedAddress()
    ensures ExtractIPv4Port("::ffff:10.0.0.1:8500") == Success(8500)
  {
    assert "::ffff:10.0.0.1:8500" == "::ffff:10.0.0.1" + ":" + "8500";
    AtoiPort8500();
    ExtractIPv4PortLastColon("::ffff:10.0.0.1", "8500");
  }

  /** An IPv6 loopback address yields its port too. */
  lemma ExtractIPv4PortOfIPv6Loopback()
    ensures ExtractIPv4Port("::1:8500") == Success(8500)
  {
    assert "::1:8500" == "::1" + ":" + "8500";
    AtoiPort8500();
    ExtractIPv4PortLastColon("::1", "8500");
  }

  /** The wildcard port of a listening socket is no port. */
  lemma ExtractIPv4PortOfWildcard()
    ensures ExtractIPv4Port("0.0.0.0:*").Failure?
  {
    assert "0.0.0.0:*" == "0.0.0.0" + ":" + "*";
    ExtractIPv4PortLastColon("0.0.0.0", "*");
  }

  /** An empty port after the colon is no port. */
  lemma ExtractIPv4PortOfEmptyPort()
    ensures ExtractIPv4Port("1.2.3.4:").Failure?
  {
    assert "1.2.3.4:" == "1.2.3.4" + ":" + "";
    ExtractIPv4PortLastColon("1.2.3.4", "");
  }

  /** An address without a colon is an invalid address. */
  lemma ExtractIPv4PortWithoutColon()
    ensures ExtractIPv4Port("127.0.0.1") == Failure(InvalidAddressFormat("127.0.0.1"))
  {
    assert ':' !in "127.0.0.1";
  }

  lemma AtoiPort8500()
    ensures Atoi("8500") == Success(8500)
  {
    assert "8500"[..3] == "850" && "850"[..2] == "85" && "85"[..1] == "8" && "8"[..0] == [];
    assert DigitsValue("8") == 8;
    assert DigitsValue("85") == 85;
    assert DigitsValue("850") == 850;
    assert DigitsValue("8500") == 8500;
  }

  // ---------------------------------------------------------------------
  // Counting

  /** Whether one line of `netstat` output is a connection that is counted:
      it has at least six fields, its remote address (field 4) has the
      monitored port, and its state (field 5) is not `TIME_WAIT`. */
  predicate IsCounted(line: string, port: int)
    ensures IsCounted(line, port) ==> |Fields(line)| >= MinFieldCount && ':' in Fields(line)[RemoteAddressField]
  {
    var fields := Fields(line);
    && |fields| >= MinFieldCount
    && var remote := ExtractIPv4Port(fields[RemoteAddressField]);
       remote.Success? && remote.value == port && fields[StateField] != TimeWait
  }

  /** The number of counted lines. */
  function CountLines(lines: seq<string>, port: int): (n: nat)
    ensures n <= |lines|
  {
    if lines == [] then 0
    else (if IsCounted(lines[0], port) then 1 else 0) + CountLines(lines[1..], port)
  }

  /** The number of counted lines of a command output. */
  function CountOutput(output: string, port: int): (n: nat)
    ensures output == [] ==> n == 0
    ensures n <= |output|
  {
    CountLines(Lines(output), port)
  }

  /** Runs through the output of `netstat -tan` one line at a time, the way
      the scanner delivers it, counting the connections to `port`; the
      unavailable count when the command failed. */
  method CountOpenIPv4Connections(netstat: Option<string>, port: int) returns (count: int)
    ensures netstat.None? ==> count == Unavailable
    ensures netstat.Some? ==> count == CountOutput(netstat.value, port)
    ensures count == Unavailable <==> netstat.None?
  {
    if netstat.None? {
      return Unavailable;
    }
    var rest := netstat.value;
    count := 0;
    while rest != []
      invariant count + CountOutput(rest, port) == CountOutput(netstat.value, port)
      decreases |rest|
    {
      var (line, next) := NextLine(rest);
      assert Lines(rest) == [line] + Lines(next);
      assert ([line] + Lines(next))[1..] == Lines(next);
      rest := next;
      var fields := Fields(line);
      if |fields| < MinFieldCount {
        continue;
      }
      var state := fields[StateField];
      var remoteAddress := fields[RemoteAddressField];
      var extracted := ExtractIPv4Port(remoteAddress);
      if extracted.Success? && extracted.value == port && state != TimeWait {
        count := count + 1;
      }
    }
  }

  /** The counts of two runs of lines add up. */
  lemma {:induction false} CountLinesAppend(a: seq<string>, b: seq<string>, port: int)
    ensures CountLines(a + b, port) == CountLines(a, port) + CountLines(b, port)
  {
    if a == [] {
      assert a + b == b;
    } else {
      assert (a + b)[1..] == a[1..] + b;
      CountLinesAppend(a[1..], b, port);
    }
  }

  /** The count does not depend on the order of the lines. */
  lemma {:induction false} CountLinesPermutation(a: seq<string>, b: seq<string>, port: int)
    requires multiset(a) == multiset(b)
    ensures CountLines(a, port) == CountLines(b, port)
    decreases |a|
  {
    if a == [] {
      assert |multiset(b)| == 0;
    } else {
      var j := RemoveFirst(a, b);
      CountLinesPermutation(a[1..], b[..j] + b[j + 1..], port);
      CountLinesRemove(b, j, port);
    }
  }

  /** Where the first line of `a` sits in a reordering `b`, and what is left
      of `b` without it is a reordering of the rest of `a`. */
  lemma RemoveFirst(a: seq<string>, b: seq<string>) returns (j: nat)
    requires a != [] && multiset(a) == multiset(b)
    ensures j < |b| && b[j] == a[0]
    ensures multiset(a[1..]) == multiset(b[..j] + b[j + 1..])
  {
    var x := a[0];
    assert x in multiset(b);
    j :| 0 <= j < |b| && b[j] == x;
    assert b == b[..j] + [x] + b[j + 1..];
    assert a == [x] + a[1..];
    assert multiset(b) == multiset(b[..j]) + multiset([x]) + multiset(b[j + 1..]);
    assert multiset(b[..j] + b[j + 1..]) == multiset(b[..j]) + multiset(b[j + 1..]);
    assert multiset(a) == multiset([x]) + multiset(a[1..]);
    assert multiset(a[1..]) == multiset(a) - multiset([x]);
  }

  /** Taking one line out of a run takes its contribution out of the count. */
  lemma CountLinesRemove(b: seq<string>, j: nat, port: int)
    requires j < |b|
    ensures CountLines(b, port) ==
              (if IsCounted(b[j], port) then 1 else 0) + CountLines(b[..j] + b[j + 1..], port)
  {
    assert b == b[..j] + [b[j]] + b[j + 1..];
    CountLinesAppend(b[..j] + [b[j]], b[j + 1..], port);
    CountLinesAppend(b[..j], [b[j]], port);
    CountLinesAppend(b[..j], b[j + 1..], port);
  }

  /** The positions of the counted lines. */
  function CountedPositions(lines: seq<string>, port: int): set<nat> {
    set i: nat | i < |lines| && IsCounted(lines[i], port)
  }

  /** The count is the number of positions that hold a counted line. */
  lemma {:induction false} CountLinesIsNumberOfCounted(lines: seq<string>, port: int)
    ensures CountLines(lines, port) == |CountedPositions(lines, port)|
    decreases |lines|
  {
    if lines != [] {
      var n := |lines| - 1;
      var init := lines[..n];
      CountLinesIsNumberOfCounted(init, port);
      assert lines == init + [lines[n]];
      CountLinesAppend(init, [lines[n]], port);
      CountedPositionsSnoc(init, lines[n], port);
    }
  }

  lemma CountedPositionsSnoc(init: seq<string>, line: string, port: int)
    ensures CountedPositions(init + [line], port) ==
            CountedPositions(init, port) + (if IsCounted(line, port) then {|init|} else {})
  {
    var lines := init + [line];
    forall i: nat | i < |init|
      ensures lines[i] == init[i]
    {
    }
  }

  /** Lines that are not counted change nothing, wherever they appear. */
  lemma UncountedLinesIgnored(a: seq<string>, extra: seq<string>, b: seq<string>, port: int)
    requires forall k :: 0 <= k < |extra| ==> !IsCounted(extra[k], port)
    ensures CountLines(a + extra + b, port) == CountLines(a + b, port)
  {
    NoneCounted(extra, port);
    CountLinesAppend(a + extra, b, port);
    CountLinesAppend(a, extra, port);
    CountLinesAppend(a, b, port);
  }

  lemma {:induction false} NoneCounted(lines: seq<string>, port: int)
    requires forall k :: 0 <= k < |lines| ==> !IsCounted(lines[k], port)
    ensures CountLines(lines, port) == 0
  {
    if lines != [] {
      NoneCounted(lines[1..], port);
    }
  }

  /** The counts of two outputs add up when the first ends at a line boundary. */
  lemma CountOutputAppend(a: string, b: string, port: int)
    requires a == [] || a[|a| - 1] == '\n'
    ensures CountOutput(a + b, port) == CountOutput(a, port) + CountOutput(b, port)
  {
    LinesAppend(a, b);
    CountLinesAppend(Lines(a), Lines(b), port);
  }

  /** Appending lines with fewer than six fields leaves the count unchanged. */
  lemma ShortLinesIgnored(output: string, short: seq<string>, port: int)
    requires output == [] || output[|output| - 1] == '\n'
    requires forall k :: 0 <= k < |short| ==> '\n' !in short[k] && |Fields(short[k])| < MinFieldCount
    ensures CountOutput(output + Terminated(short), port) == CountOutput(output, port)
  {
    CountOutputAppend(output, Terminated(short), port);
    LinesTerminatedCR(short);
    var scanned := DropCRs(short);
    if short != [] {
      DropCRsAt(short, 0);
    }
    forall k | 0 <= k < |scanned|
      ensures !IsCounted(scanned[k], port)
    {
      DropCRsAt(short, k);
      FieldsDropCR(short[k]);
    }
    NoneCounted(scanned, port);
  }

  /** A single connection line is counted exactly when it has six fields, its
      remote port is the monitored one and its state is not `TIME_WAIT`. */
  lemma OneLineOutput(line: string, port: int)
    requires '\n' !in line
    ensures var fields := Fields(line);
            CountOutput(line + "\n", port) ==
              if |fields| >= 6 && ExtractIPv4Port(fields[4]) == Success(port) && fields[5] != "TIME_WAIT"
              then 1 else 0
  {
    LinesOfLine(line);
    FieldsDropCR(line);
    assert [DropCR(line)][1..] == [];
  }

  /** Words joined by single spaces form one plain line. */
  lemma {:induction false} JoinWordsIsPlainLine(words: seq<string>)
    requires forall k :: 0 <= k < |words| ==> IsWord(words[k])
    ensures IsPlainLine(Join(words, ' '))
    ensures |words| > 0 ==> Join(words, ' ') != []
  {
    if |words| > 1 {
      var w, rest := words[0], Join(words[1..], ' ');
      JoinWordsIsPlainLine(words[1..]);
      assert Join(words, ' ') == w + [' '] + rest;
      assert '\n' !in w + [' '];
    } else if |words| == 1 {
      assert !IsSpace(words[0][|words[0]| - 1]);
    }
  }

  /** A line given by its fields is counted exactly when it has at least six,
      its remote address has the monitored port and its state is not `TIME_WAIT`. */
  lemma LineOfFields(fields: seq<string>, port: int)
    requires forall k :: 0 <= k < |fields| ==> IsWord(fields[k])
    ensures CountOutput(Join(fields, ' ') + "\n", port) ==
              if |fields| >= 6 && ExtractIPv4Port(fields[4]) == Success(port) && fields[5] != "TIME_WAIT"
              then 1 else 0
  {
    JoinWordsIsPlainLine(fields);
    FieldsJoin(fields);
    OneLineOutput(Join(fields, ' '), port);
  }

  /** One line of `netstat -tan` output for a TCP connection with empty queues. */
  function NetstatLine(local: string, remote: string, state: string): string {
    Join(["tcp", "0", "0", local, remote, state], ' ') + "\n"
  }

  /** A connection line is counted exactly when its remote address has the
      monitored port and its state is not `TIME_WAIT`. */
  lemma NetstatLineRule(local: string, remote: string, state: string, port: int)
    requires IsWord(local) && IsWord(remote) && IsWord(state)
    ensures CountOutput(NetstatLine(local, remote, state), port) ==
              if ExtractIPv4Port(remote) == Success(port) && state != "TIME_WAIT" then 1 else 0
  {
    VisibleAsciiIsWord("tcp");
    VisibleAsciiIsWord("0");
    SixWords("tcp", "0", "0", local, remote, state, port);
  }

  /** A connection from a local client to the monitored port counts in every
      state except `TIME_WAIT`: `ESTABLISHED`, and also `SYN_SENT`,
      `CLOSE_WAIT` and the other closing states. */
  lemma LoopbackConnection(state: string)
    requires IsWord(state)
    ensures CountOutput(NetstatLine("127.0.0.1:54321", "127.0.0.1:8500", state), 8500) ==
              if state == "TIME_WAIT" then 0 else 1
  {
    VisibleAsciiIsWord("127.0.0.1:54321");
    VisibleAsciiIsWord("127.0.0.1:8500");
    ExtractIPv4PortOfLoopback();
    NetstatLineRule("127.0.0.1:54321", "127.0.0.1:8500", state, 8500);
  }

  lemma LoopbackScenarios()
    ensures CountOutput(NetstatLine("127.0.0.1:54321", "127.0.0.1:8500", "ESTABLISHED"), 8500) == 1
    ensures CountOutput(NetstatLine("127.0.0.1:54321", "127.0.0.1:8500", "TIME_WAIT"), 8500) == 0
    ensures CountOutput(NetstatLine("127.0.0.1:54321", "127.0.0.1:8500", "CLOSE_WAIT"), 8500) == 1
  {
    VisibleAsciiIsWord("ESTABLISHED");
    VisibleAsciiIsWord("TIME_WAIT");
    VisibleAsciiIsWord("CLOSE_WAIT");
    LoopbackConnection("ESTABLISHED");
    LoopbackConnection("TIME_WAIT");
    LoopbackConnection("CLOSE_WAIT");
  }

  /** A socket listening on the monitored port has the wildcard remote
      address and is not counted: only the remote port is compared. */
  lemma ListeningSocketNotCounted()
    ensures CountOutput(NetstatLine("0.0.0.0:8500", "0.0.0.0:*", "LISTEN"), 8500) == 0
  {
    VisibleAsciiIsWord("0.0.0.0:8500");
    VisibleAsciiIsWord("0.0.0.0:*");
    VisibleAsciiIsWord("LISTEN");
    ExtractIPv4PortOfWildcard();
    NetstatLineRule("0.0.0.0:8500", "0.0.0.0:*", "LISTEN", 8500);
  }

  /** The heading line that `netstat` prints before the connections has six
      fields but no port in its fifth, and is not counted. */
  lemma TitleLineNotCounted(port: int)
    ensures CountOutput(Join(["Active", "Internet", "connections", "(servers", "and", "established)"], ' ') + "\n", port) == 0
  {
    var fields := ["Active", "Internet", "connections", "(servers", "and", "established)"];
    assert ExtractIPv4Port(fields[4]).Failure? by {
      assert ':' !in fields[4];
    }
    VisibleLine(fields, port);
  }

  /** The column heading line of `netstat` is not counted either. */
  lemma ColumnLineNotCounted(port: int)
    ensures CountOutput(Join(["Proto", "Recv-Q", "Send-Q", "Local", "Address", "Foreign", "Address", "State"], ' ') + "\n", port) == 0
  {
    var fields := ["Proto", "Recv-Q", "Send-Q", "Local", "Address", "Foreign", "Address", "State"];
    assert ExtractIPv4Port(fields[4]).Failure? by {
      assert ':' !in fields[4];
    }
    VisibleLine(fields, port);
  }

  /** The rule for a line of printable ASCII words. */
  lemma VisibleLine(fields: seq<string>, port: int)
    requires forall k :: 0 <= k < |fields| ==> fields[k] != [] && IsVisibleAscii(fields[k])
    ensures CountOutput(Join(fields, ' ') + "\n", port) ==
              if |fields| >= 6 && ExtractIPv4Port(fields[4]) == Success(port) && fields[5] != "TIME_WAIT"
              then 1 else 0
  {
    forall k | 0 <= k < |fields|
      ensures IsWord(fields[k])
    {
      VisibleAsciiIsWord(fields[k]);
    }
    LineOfFields(fields, port);
  }

  lemma SixWords(a: string, b: string, c: string, d: string, e: string, f: string, port: int)
    requires IsWord(a) && IsWord(b) && IsWord(c) && IsWord(d) && IsWord(e) && IsWord(f)
    ensures CountOutput(Join([a, b, c, d, e, f], ' ') + "\n", port) ==
              if ExtractIPv4Port(e) == Success(port) && f != "TIME_WAIT" then 1 else 0
  {
    var fields := [a, b, c, d, e, f];
    assert forall k :: 0 <= k < |fields| ==> fields[k] in {a, b, c, d, e, f};
    LineOfFields(fields, port);
  }

  /** The protocol column is never read: an IPv6 `tcp6` connection to the
      monitored port counts like an IPv4 one. */
  lemma Tcp6ConnectionCounted()
    ensures CountOutput(Join(["tcp6", "0", "0", "::1:54321", "::1:8500", "ESTABLISHED"], ' ') + "\n", 8500) == 1
  {
    VisibleAsciiIsWord("tcp6");
    VisibleAsciiIsWord("0");
    VisibleAsciiIsWord("::1:54321");
    VisibleAsciiIsWord("::1:8500");
    VisibleAsciiIsWord("ESTABLISHED");
    ExtractIPv4PortOfIPv6Loopback();
    SixWords("tcp6", "0", "0", "::1:54321", "::1:8500", "ESTABLISHED", 8500);
  }
}
