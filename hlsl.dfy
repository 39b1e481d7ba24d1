/**
  The host-type table the loader consults (`HlslKnownTypes`). Its contents are
  not part of this model: the table is a parameter of every operation.
*/
module Hlsl {

  /** A host (.NET) type: its full name and its generic type arguments. */
  datatype HostType = HostType(fullName: string, genericTypeArguments: seq<HostType>)

  /** The lookups of the type table, taken as given. */
  datatype KnownTypes = KnownTypes(
    isConstantBufferType: HostType -> bool,
    isReadOnlyBufferType: HostType -> bool,
    isReadWriteBufferType: HostType -> bool,
    isKnownScalarType: HostType -> bool,
    isKnownVectorType: HostType -> bool,
    getMappedName: HostType -> string)

  /** The three kinds of buffer a shader can capture. */
  datatype BufferKind = ConstantBuffer | ReadOnlyBuffer | ReadWriteBuffer

  /** What a captured field is, as far as binding is concerned. */
  datatype Category = Buffer(kind: BufferKind) | ScalarOrVector | Unsupported

  /** The category of a field type, the table's tests applied in the loader's order. */
  function Classify(table: KnownTypes, t: HostType): Category
  {
    if table.isConstantBufferType(t) then Buffer(ConstantBuffer)
    else if table.isReadOnlyBufferType(t) then Buffer(ReadOnlyBuffer)
    else if table.isReadWriteBufferType(t) then Buffer(ReadWriteBuffer)
    else if table.isKnownScalarType(t) || table.isKnownVectorType(t) then ScalarOrVector
    else Unsupported
  }
}
