/**
 * `Output`: one display as a profile declares it or as the X server reports
 * it: an optional output name, an optional EDID fingerprint and the xrandr
 * arguments to apply, kept in a map ordered by key.
 */
module Output {
  import opened Wrappers
  import opened OrderedMaps
  import Hex
  import XRandr

  datatype Output = Output(outputName: Option<string>, edid: Option<string>, xrandrArgs: map<string, string>)

  /** The xrandr argument list of an output: each key followed by its value, keys ascending. */
  function GetArgs(o: Output): (r: seq<string>)
    ensures |r| == 2 * |o.xrandrArgs|
    ensures forall i :: 0 <= i < |o.xrandrArgs| ==>
      r[2 * i] == SortedKeys(o.xrandrArgs)[i] && r[2 * i + 1] == o.xrandrArgs[r[2 * i]]
  {
    Flatten(o.xrandrArgs)
  }

  /**
   * An output built from a live xrandr output: always named, fingerprinted
   * exactly when the `EDID` property holds an EDID block, and without arguments.
   */
  function FromXRandr(o: XRandr.XOutput): (r: Output)
    ensures r.outputName == Some(o.name)
    ensures r.edid.Some? <==> XRandr.EdidProperty in o.properties && o.properties[XRandr.EdidProperty].value.Edid?
    ensures r.edid.Some? ==> r.edid.value == Hex.Encode(o.properties[XRandr.EdidProperty].value.bytes)
    ensures r.xrandrArgs == map[] && GetArgs(r) == []
  {
    Output(Some(o.name), XRandr.Fingerprint(o), map[])
  }
}
