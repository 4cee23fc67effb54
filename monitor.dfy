/**
 * `Monitor`: the record the manager classifies. It carries the same
 * name / fingerprint / arguments triple as `Output`, plus the kind of display.
 */
module Monitor {
  import opened Wrappers
  import opened OrderedMaps
  import Hex
  import XRandr
  import Paths
  import opened Errors

  datatype MonitorKind = Laptop | External | Unknown

  datatype Monitor = Monitor(kind: MonitorKind, outputName: Option<string>, edid: Option<string>, xrandrArgs: map<string, string>)

  /** The xrandr argument list of a monitor: each key followed by its value, keys ascending. */
  function GetArgs(m: Monitor): (r: seq<string>)
    ensures |r| == 2 * |m.xrandrArgs|
    ensures forall i :: 0 <= i < |m.xrandrArgs| ==>
      r[2 * i] == SortedKeys(m.xrandrArgs)[i] && r[2 * i + 1] == m.xrandrArgs[r[2 * i]]
  {
    Flatten(m.xrandrArgs)
  }

  /**
   * The monitor for a live xrandr output: of unknown kind, always named,
   * fingerprinted exactly when the `EDID` property holds an EDID block, and
   * without arguments. The conversion never fails.
   */
  function FromXOutput(o: XRandr.XOutput): (r: Monitor)
    ensures r.kind == Unknown
    ensures r.outputName == Some(o.name)
    ensures r.edid.Some? <==> XRandr.EdidProperty in o.properties && o.properties[XRandr.EdidProperty].value.Edid?
    ensures r.edid.Some? ==> r.edid.value == Hex.Encode(o.properties[XRandr.EdidProperty].value.bytes)
    ensures r.xrandrArgs == map[] && GetArgs(r) == []
  {
    Monitor(Unknown, Some(o.name), XRandr.Fingerprint(o), map[])
  }

  /**
   * Loading a monitor from a directory entry named `fileName`. Only `yaml` and
   * `yml` files are read; `parsed` stands for what opening, reading and
   * deserialising that file produce.
   */
  function LoadMonitor(fileName: string, parsed: Result<Monitor, Error>): (r: Result<Monitor, Error>)
    ensures !Paths.IsYamlFile(fileName) ==> r == Failure(UnrecognizedProfileConfigFile(fileName))
    ensures Paths.IsYamlFile(fileName) ==> r == parsed
  {
    if Paths.IsYamlFile(fileName) then parsed
    else Failure(UnrecognizedProfileConfigFile(fileName))
  }
}
