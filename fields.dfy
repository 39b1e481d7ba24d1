/** Reflection metadata and the HLSL field descriptions the loader records. */
module Fields {
  import opened Hlsl

  /** A field of the shader closure type, as reflection reports it. */
  datatype FieldInfo = FieldInfo(name: string, fieldType: HostType, isStatic: bool)

  /** A captured scalar or vector (`CapturedFieldInfo`). */
  datatype CapturedFieldInfo = CapturedFieldInfo(fieldType: HostType, typeName: string, fieldName: string)

  /**
    A captured buffer (`ConstantBufferFieldInfo`, `ReadOnlyBufferFieldInfo`,
    `ReadWriteBufferFieldInfo`), with the register index it is bound to.
  */
  datatype BufferInfo = BufferInfo(kind: BufferKind, fieldType: HostType, typeName: string, fieldName: string, bufferIndex: nat)

  /** A static field the syntax rewriter found referenced in the shader body. */
  datatype StaticFieldCapture = StaticFieldCapture(name: string, fieldInfo: FieldInfo)
}
