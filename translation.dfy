/**
  What `ShaderLoader.Load` produces for a closure type and its rewritten
  shader method, as a function, and the binding guarantees of that result.
*/
module Translation {
  import opened Results
  import opened Hlsl
  import opened Direct3D
  import opened Fields
  import opened FieldLoading
  import opened BodyRewrites

  /**
    What the decompiler and the syntax rewriter hand back for the shader
    method: its parameter names, its body text and the static fields its
    body references, in the order the rewriter found them.
  */
  datatype RewrittenMethod = RewrittenMethod(
    parameterNames: seq<string>,
    body: string,
    staticFields: seq<StaticFieldCapture>)

  /** Everything a loaded shader exposes. */
  datatype ShaderInfo = ShaderInfo(
    descriptorRanges: seq<DescriptorRange>,
    bufferFields: seq<FieldInfo>,
    buffersList: seq<BufferInfo>,
    variableFields: seq<FieldInfo>,
    fieldsList: seq<CapturedFieldInfo>,
    threadsIdsVariableName: string,
    methodBody: string)

  /** The reflection fields of the static captures, in the rewriter's order. */
  function StaticVariableFields(captures: seq<StaticFieldCapture>): seq<FieldInfo>
  {
    seq(|captures|, i requires 0 <= i < |captures| => captures[i].fieldInfo)
  }

  /** The recorded descriptions of the static captures, under the names the rewriter gave them. */
  function StaticCapturedFields(table: KnownTypes, captures: seq<StaticFieldCapture>): seq<CapturedFieldInfo>
  {
    seq(|captures|, i requires 0 <= i < |captures| =>
      CapturedFieldInfo(captures[i].fieldInfo.fieldType, table.getMappedName(captures[i].fieldInfo.fieldType), captures[i].name))
  }

  /** `Load`: the fields first, then the rewritten method; the first exception aborts. */
  function Translate(table: KnownTypes, shaderFields: seq<FieldInfo>, m: RewrittenMethod): Result<ShaderInfo>
  {
    match LoadFields(table, shaderFields)
    case Err(e) => Err(e)
    case Ok(t) =>
      if m.parameterNames == [] then Err(ArgumentOutOfRange)
      else Ok(ShaderInfo(
        t.descriptorRanges, t.bufferFields, t.buffersList,
        t.variableFields + StaticVariableFields(m.staticFields),
        t.fieldsList + StaticCapturedFields(table, m.staticFields),
        m.parameterNames[0],
        ProcessBody(m.body)))
  }

  /**
    Loading succeeds exactly when the closure type has no static field, every
    field has a supported type, and the shader method has a parameter; the
    static-field check comes first, then the first rejected field.
  */
  lemma TranslateOutcome(table: KnownTypes, shaderFields: seq<FieldInfo>, m: RewrittenMethod)
    ensures Translate(table, shaderFields, m).Ok? <==>
      && !HasStaticField(shaderFields)
      && (forall i :: 0 <= i < |shaderFields| ==> FieldError(table, shaderFields[i]).None?)
      && m.parameterNames != []
    ensures HasStaticField(shaderFields) ==>
      Translate(table, shaderFields, m) == Err(InvalidOperation(EmptyShaderBody))
    ensures !HasStaticField(shaderFields)
      && (exists i :: 0 <= i < |shaderFields| && FieldError(table, shaderFields[i]).Some?)
      ==> (exists k :: 0 <= k < |shaderFields|
             && FieldError(table, shaderFields[k]) == Some(Translate(table, shaderFields, m).error)
             && forall i :: 0 <= i < k ==> FieldError(table, shaderFields[i]).None?)
  {
    ScanFailure(table, shaderFields);
  }

  /**
    The binding layout of a loaded shader: range 0 is the reserved constant
    buffer view at register 0, range `i + 1` binds buffer `i`, the buffers are
    the closure's buffer fields in declaration order (categories interleaved),
    each kind numbers its registers from its first free one in that order, and
    no two ranges of one type share a register.
  */
  lemma TranslateBindings(table: KnownTypes, shaderFields: seq<FieldInfo>, m: RewrittenMethod)
    requires Translate(table, shaderFields, m).Ok?
    ensures var info := Translate(table, shaderFields, m).value;
      && RangesMatchBuffers(info.descriptorRanges, info.buffersList)
      && info.bufferFields == BufferFieldsOf(table, shaderFields)
      && |info.buffersList| == |info.bufferFields|
      && (forall i :: 0 <= i < |info.buffersList| ==> Describes(table, info.buffersList[i], info.bufferFields[i]))
      && (forall i :: 0 <= i < |info.buffersList| ==>
            info.buffersList[i].bufferIndex
              == FirstRegister(info.buffersList[i].kind) + CountKind(info.buffersList[..i], info.buffersList[i].kind))
      && (forall i, j :: 0 <= i < j < |info.descriptorRanges|
            && info.descriptorRanges[i].rangeType == info.descriptorRanges[j].rangeType
            ==> info.descriptorRanges[i].baseShaderRegister < info.descriptorRanges[j].baseShaderRegister)
  {
    var t := Scan(table, shaderFields).value;
    ScanConsistent(table, shaderFields);
    ScanOrder(table, shaderFields);
    DistinctRegisters(table, t);
  }

  /**
    The scalar and vector list of a loaded shader: the closure's scalar and
    vector fields in declaration order, then the static captures in the
    rewriter's order; each entry of `FieldsList` describes the field at the
    same position, under the field's name or the name the rewriter gave it.
  */
  lemma TranslateVariables(table: KnownTypes, shaderFields: seq<FieldInfo>, m: RewrittenMethod)
    requires Translate(table, shaderFields, m).Ok?
    ensures var info := Translate(table, shaderFields, m).value;
      var n := |VariableFieldsOf(table, shaderFields)|;
      && info.variableFields == VariableFieldsOf(table, shaderFields) + StaticVariableFields(m.staticFields)
      && |info.fieldsList| == |info.variableFields| == n + |m.staticFields|
      && (forall i :: 0 <= i < |info.fieldsList| ==>
            info.fieldsList[i].fieldType == info.variableFields[i].fieldType
            && info.fieldsList[i].typeName == table.getMappedName(info.variableFields[i].fieldType))
      && (forall i :: 0 <= i < n ==> info.fieldsList[i].fieldName == info.variableFields[i].name)
      && (forall i :: n <= i < |info.fieldsList| ==> info.fieldsList[i].fieldName == m.staticFields[i - n].name)
  {
    var t := Scan(table, shaderFields).value;
    ScanConsistent(table, shaderFields);
    ScanOrder(table, shaderFields);
  }

  /** Static captures never change the buffers or the descriptor ranges. */
  lemma StaticCapturesLeaveBindings(table: KnownTypes, shaderFields: seq<FieldInfo>, m: RewrittenMethod, m': RewrittenMethod)
    requires Translate(table, shaderFields, m).Ok? && Translate(table, shaderFields, m').Ok?
    ensures Translate(table, shaderFields, m).value.descriptorRanges == Translate(table, shaderFields, m').value.descriptorRanges
    ensures Translate(table, shaderFields, m).value.bufferFields == Translate(table, shaderFields, m').value.bufferFields
    ensures Translate(table, shaderFields, m).value.buffersList == Translate(table, shaderFields, m').value.buffersList
  {
  }

  /**
    A closure capturing a read-only buffer `input` and a read-write buffer
    `output`, and nothing else, is bound as the reserved constant buffer view,
    shader resource view 0 and unordered access view 0.
  */
  lemma ReadOnlyAndReadWriteBuffers(table: KnownTypes, input: FieldInfo, output: FieldInfo, m: RewrittenMethod)
    requires !input.isStatic && !output.isStatic && m.parameterNames != []
    requires Classify(table, input.fieldType) == Buffer(ReadOnlyBuffer)
    requires Classify(table, output.fieldType) == Buffer(ReadWriteBuffer)
    ensures Translate(table, [input, output], m).Ok?
    ensures var info := Translate(table, [input, output], m).value;
      && info.descriptorRanges == [ReservedRange, DescriptorRange(ShaderResourceView, 1, 0), DescriptorRange(UnorderedAccessView, 1, 0)]
      && info.bufferFields == [input, output]
      && info.buffersList == [
           BufferInfo(ReadOnlyBuffer, input.fieldType, table.getMappedName(input.fieldType), input.name, 0),
           BufferInfo(ReadWriteBuffer, output.fieldType, table.getMappedName(output.fieldType), output.name, 0)]
      && info.variableFields == StaticVariableFields(m.staticFields)
  {
    var fields := [input, output];
    assert !HasStaticField(fields);
    var t0 := InitialTables();
    assert Scan(table, [input]) == AddField(table, t0, input) by { assert [input][..0] == []; }
    var t1 := t0.(descriptorRanges := t0.descriptorRanges + [DescriptorRange(ShaderResourceView, 1, 0)],
                  bufferFields := [input],
                  buffersList := [BufferInfo(ReadOnlyBuffer, input.fieldType, table.getMappedName(input.fieldType), input.name, 0)],
                  readOnlyBuffersCount := 1);
    assert t0.Counter(ReadOnlyBuffer) == 0;
    var info := BufferInfo(ReadOnlyBuffer, input.fieldType, BufferTypeName(table, ReadOnlyBuffer, input.fieldType), input.name, 0);
    assert AddField(table, t0, input) == Ok(t0.(descriptorRanges := t0.descriptorRanges + [DescriptorRange(RangeTypeOf(ReadOnlyBuffer), 1, 0)],
              bufferFields := t0.bufferFields + [input],
              buffersList := t0.buffersList + [info]).Bump(ReadOnlyBuffer));
    var u := t0.(descriptorRanges := t0.descriptorRanges + [DescriptorRange(RangeTypeOf(ReadOnlyBuffer), 1, 0)],
              bufferFields := t0.bufferFields + [input],
              buffersList := t0.buffersList + [info]);
    assert u.Bump(ReadOnlyBuffer) == u.(readOnlyBuffersCount := 1);
    assert t0.bufferFields + [input] == [input];
    assert t0.buffersList + [info] == [info];
    assert AddField(table, t0, input) == Ok(t1);
    assert Scan(table, fields) == AddField(table, t1, output) by { assert fields[..1] == [input]; }
  }
}
