/**
 * The live output record the X server reports through the `xrandr` crate,
 * reduced to what the program reads from it: the output's name and its
 * properties by name. The EDID fingerprint extraction shared by
 * `Output::from` and `Monitor::try_from` lives here.
 */
module XRandr {
  import opened Wrappers
  import Hex

  /** A property value: an EDID block, or any of the other value kinds (integers, atoms, ...). */
  datatype PropertyValue = Edid(bytes: seq<Hex.Byte>) | Other

  datatype Property = Property(value: PropertyValue)

  datatype XOutput = XOutput(name: string, properties: map<string, Property>)

  /** The name of the property that carries the monitor's identification block. */
  const EdidProperty: string := "EDID"

  /**
   * The fingerprint of a live output: the lowercase hex of its EDID block when
   * the `EDID` property holds an EDID value, and nothing when the property is
   * missing or holds another kind of value.
   */
  function Fingerprint(o: XOutput): (r: Option<string>)
    ensures r.Some? <==> EdidProperty in o.properties && o.properties[EdidProperty].value.Edid?
    ensures r.Some? ==> r.value == Hex.Encode(o.properties[EdidProperty].value.bytes)
  {
    if EdidProperty in o.properties then
      match o.properties[EdidProperty].value
      case Edid(v) => Some(Hex.Encode(v))
      case Other => None
    else None
  }

  /** A fingerprint is `2·|v|` lowercase hex characters for the EDID block `v`. */
  lemma FingerprintShape(o: XOutput)
    requires Fingerprint(o).Some?
    ensures |Fingerprint(o).value| == 2 * |o.properties[EdidProperty].value.bytes|
    ensures forall i :: 0 <= i < |Fingerprint(o).value| ==> Hex.IsLowerHexDigit(Fingerprint(o).value[i])
  {
  }

  /** Two live outputs share a fingerprint only when their EDID blocks are identical. */
  lemma FingerprintInjective(o1: XOutput, o2: XOutput)
    requires Fingerprint(o1).Some? && Fingerprint(o1) == Fingerprint(o2)
    ensures o1.properties[EdidProperty].value.bytes == o2.properties[EdidProperty].value.bytes
  {
    Hex.EncodeInjective(o1.properties[EdidProperty].value.bytes, o2.properties[EdidProperty].value.bytes);
  }
}
