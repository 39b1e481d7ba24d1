/** The Direct3D 12 binding descriptions the loader produces, as plain values. */
module Direct3D {

  datatype DescriptorRangeType = ConstantBufferView | ShaderResourceView | UnorderedAccessView

  /** A descriptor range: its type, how many descriptors it spans and its first register. */
  datatype DescriptorRange = DescriptorRange(rangeType: DescriptorRangeType, descriptorCount: nat, baseShaderRegister: nat)

  datatype ShaderVisibility = All | Vertex | Hull | Domain | Geometry | Pixel

  /** A root parameter holding a single descriptor range. */
  datatype RootParameter = RootParameter(visibility: ShaderVisibility, range: DescriptorRange)

  /** One root parameter, visible to all stages, per descriptor range, in order. */
  function RootParametersOf(ranges: seq<DescriptorRange>): (r: seq<RootParameter>)
    ensures |r| == |ranges|
    ensures forall i :: 0 <= i < |r| ==> r[i].visibility == All && r[i].range == ranges[i]
  {
    if ranges == [] then []
    else [RootParameter(All, ranges[0])] + RootParametersOf(ranges[1..])
  }
}
