/** One round of the exporter's polling loop, without the timer and the file
    write: the configuration, the count and the rendered fragment together. */
module ExporterTick {
  import opened Wrappers
  import opened GoStrings
  import opened LineScanner
  import opened Strconv
  import opened Exporter
  import opened Metrics

  /** One round of the exporter's loop: count the connections in the
      command's output and render the fragment for the metrics file. */
  method ExportOnce(consulPort: Option<string>, netstat: Option<string>) returns (content: string)
    ensures var port := ConfiguredPort(consulPort);
            content == MetricContent(port, if netstat.None? then Unavailable else CountOutput(netstat.value, port))
  {
    var port := ConfiguredPort(consulPort);
    var count := CountOpenIPv4Connections(netstat, port);
    content := MetricContent(port, count);
  }

  /** The sample line of a tick reads back as the count, and it reads back
      as -1 exactly when `netstat` could not be run. (Go's strings are at
      most `MaxInt64` bytes long, so every count fits the 64-bit `int`.) */
  lemma FailedTickReportsUnavailable(consulPort: Option<string>, netstat: Option<string>)
    requires netstat.Some? ==> |netstat.value| <= MaxInt64
    ensures var port := ConfiguredPort(consulPort);
            var count := if netstat.None? then Unavailable else CountOutput(netstat.value, port);
            var lines := Lines(MetricContent(port, count));
            |lines| == 3 && var sample := Fields(lines[2]);
            && |sample| == 2
            && Atoi(sample[1]) == Success(count)
            && (Atoi(sample[1]) == Success(Unavailable) <==> netstat.None?)
  {
    var port := ConfiguredPort(consulPort);
    var count := if netstat.None? then Unavailable else CountOutput(netstat.value, port);
    MetricContentReadBack(port, count);
  }
}
