/**
 The small decisions of the renderer: the access key taken from the `Id`
 attribute, the "SEM VALOR FISCAL" watermark, and the barcode offset chosen
 from the configured right margin.
 */
module Decisions {
  import opened Wrappers

  /** The Python exceptions these decisions can raise. */
  datatype PyError =
    | AttributeError  // attribute access on None
    | TypeError       // subscripting None, or adding None to a number

  // ---------------------------------------------------------------------
  // Access key: the `Id` attribute of `infMDFe` minus its first four characters
  // ---------------------------------------------------------------------

  /** The attributes of the `infMDFe` element; a missing element is `None` where it is used. */
  type Attributes = map<string, string>

  /** Length of the "MDFe" prefix that precedes the 44-digit key in `Id`. */
  const IdPrefixLength: nat := 4

  /** Python's `s[4:]`: empty when the string is shorter than the prefix. */
  function DropPrefix(id: string): (key: string)
    ensures |id| >= IdPrefixLength ==> id == id[..IdPrefixLength] + key
    ensures |id| < IdPrefixLength ==> key == ""
  {
    if |id| >= IdPrefixLength then id[IdPrefixLength..] else ""
  }

  /** The MDF-e access key; a missing element or a missing `Id` raises. */
  function AccessKey(infMdfe: Option<Attributes>): (r: Result<string, PyError>)
    ensures infMdfe.None? ==> r == Failure(AttributeError)
    ensures infMdfe.Some? && "Id" !in infMdfe.value ==> r == Failure(TypeError)
    ensures r.Success? <==> infMdfe.Some? && "Id" in infMdfe.value
    ensures r.Success? ==> |r.value| == if |infMdfe.value["Id"]| >= IdPrefixLength
                                        then |infMdfe.value["Id"]| - IdPrefixLength else 0
    ensures r.Success? && |infMdfe.value["Id"]| >= IdPrefixLength ==>
              infMdfe.value["Id"] == infMdfe.value["Id"][..IdPrefixLength] + r.value
  {
    match infMdfe
    case None => Failure(AttributeError)
    case Some(attrs) =>
      if "Id" in attrs then Success(DropPrefix(attrs["Id"])) else Failure(TypeError)
  }

  /** Whatever four characters precede it, the key written after them comes back unchanged. */
  lemma AccessKeyRoundTrip(prefix: string, key: string, attrs: Attributes)
    requires |prefix| == IdPrefixLength
    requires "Id" in attrs && attrs["Id"] == prefix + key
    ensures AccessKey(Some(attrs)) == Success(key)
  {
    assert (prefix + key)[IdPrefixLength..] == key;
  }

  // ---------------------------------------------------------------------
  // "SEM VALOR FISCAL" watermark
  // ---------------------------------------------------------------------

  /** The `protMDFe` element as far as its truth value goes: its number of children. */
  datatype ProtocolElement = ProtocolElement(childCount: nat)

  /** Python's `bool(...)` of the result of `root.find`: None is false, an element is true when it has children. */
  predicate ProtocolTruthy(prot: Option<ProtocolElement>) {
    prot.Some? && prot.value.childCount > 0
  }

  /** The draw calls the watermark makes; coordinates are left out. */
  datatype DrawOp =
    | SetFont(style: string, size: nat)
    | SetTextColor(r: nat, g: nat, b: nat)
    | RotatedText(angle: nat, text: string)

  const WatermarkText: string := "SEM VALOR FISCAL"

  /** The draw calls `_draw_void_watermark` emits for an environment code and a protocol element. */
  function WatermarkOps(tpAmb: string, prot: Option<ProtocolElement>): (ops: seq<DrawOp>)
    ensures ops == [] <==> tpAmb == "1" && ProtocolTruthy(prot)
    ensures ops != [] ==> RotatedText(55, WatermarkText) in ops
    ensures ops != [] ==> ops[|ops| - 1] == SetTextColor(0, 0, 0)
  {
    var isProduction := tpAmb == "1";
    var isProtocolAvailable := ProtocolTruthy(prot);
    if isProduction && isProtocolAvailable then []
    else
      [SetFont("B", 60), SetTextColor(220, 150, 150), RotatedText(55, WatermarkText), SetTextColor(0, 0, 0)]
  }

  // ---------------------------------------------------------------------
  // Barcode x-offset from the right margin
  // ---------------------------------------------------------------------

  /** The `margins_offset` table: right margin (mm) to barcode x-offset (mm). */
  const MarginsOffset: map<int, real> :=
    map[1 := 8.0, 2 := 8.0, 3 := 7.0, 4 := 7.0, 5 := 6.0,
        6 := 6.0, 7 := 5.5, 8 := 5.0, 9 := 4.0, 10 := 4.0]

  /** A margin that equals an integer in Python's dictionary lookup (3.0 finds key 3). */
  predicate IsWhole(margin: real) {
    margin.Floor as real == margin
  }

  /** `margins_offset.get(right_margin)`. */
  function OffsetFor(rightMargin: real): (r: Option<real>)
    ensures r.Some? <==> IsWhole(rightMargin) && 1.0 <= rightMargin <= 10.0
    ensures r.Some? ==> 4.0 <= r.value <= 8.0
  {
    if IsWhole(rightMargin) && rightMargin.Floor in MarginsOffset
    then Some(MarginsOffset[rightMargin.Floor])
    else None
  }

  /** A wider right margin never moves the barcode further right. */
  lemma OffsetNonIncreasing(narrow: int, wide: int)
    requires 1 <= narrow <= wide <= 10
    ensures OffsetFor(narrow as real).Some? && OffsetFor(wide as real).Some?
    ensures OffsetFor(narrow as real).value >= OffsetFor(wide as real).value
  {
    assert (narrow as real).Floor == narrow;
    assert (wide as real).Floor == wide;
  }

  /** The barcode's x position, `x_middle + x_offset`; a missing offset makes the addition raise. */
  function BarcodeX(xMiddle: real, rightMargin: real): (r: Result<real, PyError>)
    ensures r.Failure? ==> r.error == TypeError
    ensures r.Success? <==> IsWhole(rightMargin) && 1.0 <= rightMargin <= 10.0
    ensures r.Success? ==> xMiddle + 4.0 <= r.value <= xMiddle + 8.0
  {
    match OffsetFor(rightMargin)
    case None => Failure(TypeError)
    case Some(offset) => Success(xMiddle + offset)
  }
}
