/** The RAPL collector of main.go: one scrape (`RaplCollector.Update`, main.go:70-100)
    and the metric it builds for each zone (`joulesMetric`, main.go:102-121).

    Zone discovery and the reading of each zone's `energy_uj` file go through a
    filesystem library; here they are inputs: a `Discovery` value says what zone
    discovery returned, and each `Zone` carries what reading its counter returns
    during this scrape. The metrics channel is a `Channel` object whose sequence of
    sent metrics only grows. */
module Rapl {
  import opened MetricName
  import opened Decimal

  datatype Option<T> = None | Some(value: T)

  /** Go's `uint64`, the type of the microjoule counter. */
  type uint64 = x: int | 0 <= x < 0x1_0000_0000_0000_0000

  /** A filesystem error, by the sentinel `errors.Is` matches it against:
      `os.ErrNotExist`, `os.ErrPermission`, or neither. */
  datatype FsError = NotExist | Permission | Other(code: nat)

  /** What reading a zone's energy counter returns. */
  datatype Reading = Microjoules(value: uint64) | ReadFailed(err: FsError)

  /** A powercap zone as discovery reports it, with the result of reading its counter. */
  datatype Zone = Zone(name: string, index: int64, path: string, energy: Reading)

  /** What zone discovery returns: the zones, in order, or an error. */
  datatype Discovery = Zones(zones: seq<Zone>) | DiscoveryFailed(err: FsError)

  /** The error values `Update` returns: the sentinel `ErrNoData`, an error wrapped
      by `fmt.Errorf("failed to retrieve rapl stats: %w", err)`, or a read error as is. */
  datatype Error = ErrNoData | Wrapped(message: string, cause: FsError) | Raw(cause: FsError)

  const RetrieveFailedMessage := "failed to retrieve rapl stats"

  datatype ValueType = CounterValue | GaugeValue | UntypedValue

  /** A metric descriptor: fully qualified name, help text and variable label names. */
  datatype Desc = Desc(fqName: string, help: string, variableLabels: seq<string>)

  /** A constant metric. The sample value is kept as the integer microjoule count;
      the Go code divides it by 1e6 in floating point. */
  datatype Metric = Metric(desc: Desc, valueType: ValueType, microjoules: uint64, labelValues: seq<string>)

  /** `prometheus.BuildFQName`: the non-empty parts joined by '_', and "" when the name is empty. */
  function BuildFQName(namespace: string, subsystem: string, name: string): string {
    if name == "" then ""
    else
      (if namespace != "" then namespace + "_" else "") +
      (if subsystem != "" then subsystem + "_" else "") + name
  }

  /** A metric name Prometheus accepts in every validation mode: `[a-zA-Z_:][a-zA-Z0-9_:]*`. */
  predicate IsValidMetricName(n: string) {
    |n| > 0 && !IsDigit(n[0]) && forall i :: 0 <= i < |n| ==> IsNameChar(n[i]) || n[i] == ':'
  }

  /** `joulesMetric(z, v)`: a counter named after the sanitised zone name, whose
      label values read back as the zone's index and path. The name is always a
      valid metric name and the label values match the label names one for one,
      so building the descriptor and the metric cannot fail. */
  function JoulesMetric(z: Zone, microjoules: uint64): (m: Metric)
    ensures m.desc.fqName == "node_rapl_" + Sanitize(z.name) + "_joules_total"
    ensures IsValidMetricName(m.desc.fqName)
    ensures m.desc.help == "Current RAPL " + z.name + " value in joules"
    ensures m.desc.variableLabels == ["index", "path"]
    ensures |m.labelValues| == |m.desc.variableLabels|
    ensures m.labelValues[0] == Itoa(z.index)
    ensures IsNumeral(m.labelValues[0]) && DecimalValue(m.labelValues[0]) == z.index as int
    ensures m.labelValues[1] == z.path
    ensures m.valueType == CounterValue && m.microjoules == microjoules
  {
    var name := Sanitize(z.name) + "_joules_total";
    var fqName := BuildFQName("node", "rapl", name);
    assert fqName == "node_rapl_" + Sanitize(z.name) + "_joules_total";
    assert IsValidMetricName(fqName) by {
      var s := Sanitize(z.name);
      forall i | 0 <= i < |fqName| ensures IsNameChar(fqName[i]) || fqName[i] == ':' {
        if 10 <= i < 10 + |s| {
          assert fqName[i] == s[i - 10];
        }
      }
    }
    ItoaRoundTrip(z.index);
    var desc := Desc(fqName, "Current RAPL " + z.name + " value in joules", ["index", "path"]);
    Metric(desc, CounterValue, microjoules, [Itoa(z.index), z.path])
  }

  /** The error `Update` returns when zone discovery fails. */
  function DiscoveryError(e: FsError): Error {
    if e.NotExist? then ErrNoData
    else if e.Permission? then ErrNoData
    else Wrapped(RetrieveFailedMessage, e)
  }

  /** The error `Update` returns when reading a zone's counter fails. */
  function ReadError(e: FsError): Error {
    if e.Permission? then ErrNoData else Raw(e)
  }

  /** What one scrape sends on the channel, in order, and the error it returns
      (`None` for nil). */
  datatype Outcome = Outcome(emitted: seq<Metric>, err: Option<Error>)

  /** The emission loop over `zones` (main.go:85-99), one zone at a time. */
  function EmitZones(zones: seq<Zone>): Outcome {
    if zones == [] then Outcome([], None)
    else
      match zones[0].energy
      case ReadFailed(e) => Outcome([], Some(ReadError(e)))
      case Microjoules(uj) =>
        var rest := EmitZones(zones[1..]);
        Outcome([JoulesMetric(zones[0], uj)] + rest.emitted, rest.err)
  }

  /** One scrape, as a function of what discovery returned. */
  function Scrape(d: Discovery): Outcome {
    match d
    case DiscoveryFailed(e) => Outcome([], Some(DiscoveryError(e)))
    case Zones(zones) => EmitZones(zones)
  }

  predicate AllReadable(zones: seq<Zone>) {
    forall i :: 0 <= i < |zones| ==> zones[i].energy.Microjoules?
  }

  /** The metric of a zone whose counter was read. */
  function ZoneMetric(z: Zone): Metric
    requires z.energy.Microjoules?
  {
    JoulesMetric(z, z.energy.value)
  }

  /** A missing or unreadable powercap hierarchy sends nothing and returns
      `ErrNoData`; any other discovery error sends nothing and returns that
      error wrapped, which is not `ErrNoData`. */
  lemma ScrapeDiscoveryFailed(e: FsError)
    ensures Scrape(DiscoveryFailed(e)).emitted == []
    ensures Scrape(DiscoveryFailed(e)).err == Some(ErrNoData) <==> e.NotExist? || e.Permission?
    ensures !(e.NotExist? || e.Permission?) ==> Scrape(DiscoveryFailed(e)).err == Some(Wrapped(RetrieveFailedMessage, e))
  {
  }

  /** When every counter reads, the scrape sends exactly one metric per zone,
      in zone order, each built from that zone's own reading, and returns nil. */
  lemma {:induction false} EmitAllReadable(zones: seq<Zone>)
    requires AllReadable(zones)
    ensures EmitZones(zones).err == None
    ensures |EmitZones(zones).emitted| == |zones|
    ensures forall i :: 0 <= i < |zones| ==> EmitZones(zones).emitted[i] == ZoneMetric(zones[i])
  {
    if zones != [] {
      assert AllReadable(zones[1..]) by {
        forall i | 0 <= i < |zones[1..]| ensures zones[1..][i].energy.Microjoules? {
          assert zones[1..][i] == zones[i + 1];
        }
      }
      EmitAllReadable(zones[1..]);
      var rest := EmitZones(zones[1..]);
      forall i | 0 <= i < |zones| ensures EmitZones(zones).emitted[i] == ZoneMetric(zones[i]) {
        if i > 0 {
          assert EmitZones(zones).emitted[i] == rest.emitted[i - 1];
          assert zones[1..][i - 1] == zones[i];
        }
      }
    }
  }

  /** At the first zone whose counter does not read, the scrape has sent exactly
      the metrics of the zones before it, sends nothing for it or any later zone,
      and returns `ErrNoData` for a permission error and the read error itself otherwise. */
  lemma {:induction false} EmitFirstFailure(zones: seq<Zone>, k: nat)
    requires k < |zones| && zones[k].energy.ReadFailed?
    requires forall i :: 0 <= i < k ==> zones[i].energy.Microjoules?
    ensures |EmitZones(zones).emitted| == k
    ensures forall i :: 0 <= i < k ==> EmitZones(zones).emitted[i] == ZoneMetric(zones[i])
    ensures EmitZones(zones).err ==
              Some(if zones[k].energy.err.Permission? then ErrNoData else Raw(zones[k].energy.err))
  {
    if k > 0 {
      assert zones[1..][k - 1] == zones[k];
      forall i | 0 <= i < k - 1 ensures zones[1..][i].energy.Microjoules? {
        assert zones[1..][i] == zones[i + 1];
      }
      EmitFirstFailure(zones[1..], k - 1);
      var rest := EmitZones(zones[1..]);
      forall i | 0 <= i < k ensures EmitZones(zones).emitted[i] == ZoneMetric(zones[i]) {
        if i > 0 {
          assert EmitZones(zones).emitted[i] == rest.emitted[i - 1];
          assert zones[1..][i - 1] == zones[i];
        }
      }
    }
  }

  /** The scrape returns nil exactly when every zone's counter reads. */
  lemma {:induction false} EmitSucceedsIffAllReadable(zones: seq<Zone>)
    ensures EmitZones(zones).err == None <==> AllReadable(zones)
  {
    if zones != [] {
      EmitSucceedsIffAllReadable(zones[1..]);
      if zones[0].energy.Microjoules? {
        assert AllReadable(zones) <==> AllReadable(zones[1..]) by {
          forall i | 0 <= i < |zones[1..]| ensures zones[1..][i] == zones[i + 1] {
          }
          if AllReadable(zones[1..]) {
            forall i | 0 < i < |zones| ensures zones[i].energy.Microjoules? {
              assert zones[1..][i - 1] == zones[i];
            }
          }
        }
      }
    }
  }

  /** One turn of the emission loop, at position `i`. */
  lemma EmitStep(zones: seq<Zone>, i: nat)
    requires i < |zones|
    ensures zones[i].energy.ReadFailed? ==>
              EmitZones(zones[i..]) == Outcome([], Some(ReadError(zones[i].energy.err)))
    ensures zones[i].energy.Microjoules? ==>
              EmitZones(zones[i..]).emitted == [ZoneMetric(zones[i])] + EmitZones(zones[i + 1..]).emitted &&
              EmitZones(zones[i..]).err == EmitZones(zones[i + 1..]).err
  {
    assert zones[i..][0] == zones[i];
    assert zones[i..][1..] == zones[i + 1..];
  }

  /** The metrics channel `ch`: what has been sent on it, in order. */
  class Channel {
    var sent: seq<Metric>

    /** `ch <- m` */
    method Send(m: Metric)
      modifies this
      ensures sent == old(sent) + [m]
    {
      sent := sent + [m];
    }
  }

  /** `RaplCollector.Update`: classifies a discovery failure, then reads the zones
      in order, sending one metric per zone and stopping at the first counter that
      does not read. */
  method Update(discovery: Discovery, ch: Channel) returns (err: Option<Error>)
    modifies ch
    ensures ch.sent == old(ch.sent) + Scrape(discovery).emitted
    ensures err == Scrape(discovery).err
  {
    if discovery.DiscoveryFailed? {
      var e := discovery.err;
      if e.NotExist? {
        return Some(ErrNoData);
      }
      if e.Permission? {
        return Some(ErrNoData);
      }
      return Some(Wrapped(RetrieveFailedMessage, e));
    }
    var zones := discovery.zones;
    ghost var emitted: seq<Metric> := [];
    for i := 0 to |zones|
      invariant ch.sent == old(ch.sent) + emitted
      invariant EmitZones(zones).emitted == emitted + EmitZones(zones[i..]).emitted
      invariant EmitZones(zones).err == EmitZones(zones[i..]).err
    {
      var rz := zones[i];
      EmitStep(zones, i);
      match rz.energy
      case ReadFailed(e) =>
        if e.Permission? {
          return Some(ErrNoData);
        }
        return Some(Raw(e));
      case Microjoules(microJoules) =>
        var m := JoulesMetric(rz, microJoules);
        assert m == ZoneMetric(rz);
        ch.Send(m);
        emitted := emitted + [m];
        assert EmitZones(zones).emitted == emitted + EmitZones(zones[i + 1..]).emitted;
    }
    assert zones[|zones|..] == [];
    return None;
  }
}
