/**
  The loader object itself (`ShaderLoader`): it fills its lists in place,
  field by field, then folds in the static captures and post-processes the
  method body, and caches its root parameters on first use.
*/
module ShaderLoading {
  import opened Results
  import opened Hlsl
  import opened Direct3D
  import opened Fields
  import opened FieldLoading
  import opened BodyRewrites
  import opened Translation

  class ShaderLoader {
    /** The fields of the shader closure type (`ShaderType.GetFields()`), in declaration order. */
    const shaderFields: seq<FieldInfo>

    /** The host-type table the fields are classified with. */
    const table: KnownTypes

    var descriptorRanges: seq<DescriptorRange>
    var rootParameters: Option<seq<RootParameter>>
    var bufferFields: seq<FieldInfo>
    var variableFields: seq<FieldInfo>
    var buffersList: seq<BufferInfo>
    var fieldsList: seq<CapturedFieldInfo>
    var threadsIdsVariableName: string
    var methodBody: string

    /** A loader for a closure type with nothing loaded yet. */
    constructor (shaderFields: seq<FieldInfo>, table: KnownTypes)
      ensures this.shaderFields == shaderFields && this.table == table
      ensures Empty() && rootParameters == None
      ensures threadsIdsVariableName == "" && methodBody == ""
    {
      this.shaderFields := shaderFields;
      this.table := table;
      descriptorRanges := [];
      rootParameters := None;
      bufferFields := [];
      variableFields := [];
      buffersList := [];
      fieldsList := [];
      threadsIdsVariableName := "";
      methodBody := "";
    }

    /** No range and no field has been recorded. */
    ghost predicate Empty()
      reads this
    {
      descriptorRanges == [] && bufferFields == [] && buffersList == [] && variableFields == [] && fieldsList == []
    }

    /** The root parameter cache, once filled, agrees with the descriptor ranges. */
    ghost predicate CacheValid()
      reads this
    {
      rootParameters.Some? ==> rootParameters.value == RootParametersOf(descriptorRanges)
    }

    /** What the loader exposes. */
    function Info(): ShaderInfo
      reads this
    {
      ShaderInfo(descriptorRanges, bufferFields, buffersList, variableFields, fieldsList, threadsIdsVariableName, methodBody)
    }

    /** Loads a shader: its fields, then its method; an exception aborts the load. */
    static method Load(shaderFields: seq<FieldInfo>, table: KnownTypes, rewritten: RewrittenMethod)
      returns (r: Result<ShaderLoader>)
      ensures r.Ok? <==> Translate(table, shaderFields, rewritten).Ok?
      ensures r.Err? ==> r.error == Translate(table, shaderFields, rewritten).error
      ensures r.Ok? ==> fresh(r.value) && r.value.Info() == Translate(table, shaderFields, rewritten).value
      ensures r.Ok? ==> r.value.shaderFields == shaderFields && r.value.table == table
      ensures r.Ok? ==> r.value.rootParameters == None && r.value.CacheValid()
    {
      var loader := new ShaderLoader(shaderFields, table);
      var fieldsOutcome := loader.LoadFieldsInfo();
      if fieldsOutcome.Fail? {
        return Err(fieldsOutcome.error);
      }
      var methodOutcome := loader.LoadMethodSource(rewritten);
      if methodOutcome.Fail? {
        return Err(methodOutcome.error);
      }
      return Ok(loader);
    }

    /**
      Rejects a closure type with a static field, reserves range 0, then
      classifies each field in declaration order and records it.
    */
    method LoadFieldsInfo() returns (outcome: Outcome)
      requires Empty()
      modifies this`descriptorRanges, this`bufferFields, this`buffersList, this`variableFields, this`fieldsList
      ensures outcome.Pass? <==> LoadFields(table, shaderFields).Ok?
      ensures outcome.Fail? ==> outcome.error == LoadFields(table, shaderFields).error
      ensures outcome.Pass? ==>
        var t := LoadFields(table, shaderFields).value;
        && descriptorRanges == t.descriptorRanges && bufferFields == t.bufferFields
        && buffersList == t.buffersList && variableFields == t.variableFields && fieldsList == t.fieldsList
      ensures HasStaticField(shaderFields) ==> Empty()
    {
      if HasStaticField(shaderFields) {
        return Fail(InvalidOperation(EmptyShaderBody));
      }

      var constantBuffersCount, readOnlyBuffersCount, readWriteBuffersCount := 0, 0, 0;

      // The range of the constant buffer that holds the captured scalars and vectors
      descriptorRanges := descriptorRanges + [DescriptorRange(ConstantBufferView, 1, constantBuffersCount)];
      constantBuffersCount := constantBuffersCount + 1;

      var i := 0;
      assert shaderFields[..i] == [] && descriptorRanges == [ReservedRange];
      while i < |shaderFields|
        invariant i <= |shaderFields|
        invariant Scan(table, shaderFields[..i])
               == Ok(FieldTables(descriptorRanges, bufferFields, buffersList, variableFields, fieldsList,
                                 constantBuffersCount, readOnlyBuffersCount, readWriteBuffersCount))
      {
        var fieldInfo := shaderFields[i];
        var fieldType := fieldInfo.fieldType;
        var fieldName := fieldInfo.name;
        assert shaderFields[..i + 1][..i] == shaderFields[..i];

        if table.isConstantBufferType(fieldType) {
          descriptorRanges := descriptorRanges + [DescriptorRange(ConstantBufferView, 1, constantBuffersCount)];
          bufferFields := bufferFields + [fieldInfo];
          if |fieldType.genericTypeArguments| == 0 {
            ScanErrorPersists(table, shaderFields, i + 1);
            return Fail(IndexOutOfRange);
          }
          var typeName := table.getMappedName(fieldType.genericTypeArguments[0]);
          buffersList := buffersList + [BufferInfo(ConstantBuffer, fieldType, typeName, fieldName, constantBuffersCount)];
          constantBuffersCount := constantBuffersCount + 1;
        } else if table.isReadOnlyBufferType(fieldType) {
          descriptorRanges := descriptorRanges + [DescriptorRange(ShaderResourceView, 1, readOnlyBuffersCount)];
          bufferFields := bufferFields + [fieldInfo];
          var typeName := table.getMappedName(fieldType);
          buffersList := buffersList + [BufferInfo(ReadOnlyBuffer, fieldType, typeName, fieldName, readOnlyBuffersCount)];
          readOnlyBuffersCount := readOnlyBuffersCount + 1;
        } else if table.isReadWriteBufferType(fieldType) {
          descriptorRanges := descriptorRanges + [DescriptorRange(UnorderedAccessView, 1, readWriteBuffersCount)];
          bufferFields := bufferFields + [fieldInfo];
          var typeName := table.getMappedName(fieldType);
          buffersList := buffersList + [BufferInfo(ReadWriteBuffer, fieldType, typeName, fieldName, readWriteBuffersCount)];
          readWriteBuffersCount := readWriteBuffersCount + 1;
        } else if table.isKnownScalarType(fieldType) || table.isKnownVectorType(fieldType) {
          variableFields := variableFields + [fieldInfo];
          var typeName := table.getMappedName(fieldType);
          fieldsList := fieldsList + [CapturedFieldInfo(fieldType, typeName, fieldName)];
        } else {
          ScanErrorPersists(table, shaderFields, i + 1);
          return Fail(NotSupported(UnsupportedFieldMessage(fieldType)));
        }
        i := i + 1;
      }
      assert shaderFields[..i] == shaderFields;
      return Pass;
    }

    /**
      Records the static captures the rewriter found, then takes the thread
      ids parameter name and the body text, and post-processes the body.
    */
    method LoadMethodSource(rewritten: RewrittenMethod) returns (outcome: Outcome)
      modifies this`variableFields, this`fieldsList, this`threadsIdsVariableName, this`methodBody
      ensures variableFields == old(variableFields) + StaticVariableFields(rewritten.staticFields)
      ensures fieldsList == old(fieldsList) + StaticCapturedFields(table, rewritten.staticFields)
      ensures outcome.Pass? <==> rewritten.parameterNames != []
      ensures outcome.Fail? ==>
        && outcome.error == ArgumentOutOfRange
        && threadsIdsVariableName == old(threadsIdsVariableName) && methodBody == old(methodBody)
      ensures outcome.Pass? ==>
        threadsIdsVariableName == rewritten.parameterNames[0] && methodBody == ProcessBody(rewritten.body)
    {
      var captures := rewritten.staticFields;
      var i := 0;
      while i < |captures|
        invariant i <= |captures|
        invariant variableFields == old(variableFields) + StaticVariableFields(captures[..i])
        invariant fieldsList == old(fieldsList) + StaticCapturedFields(table, captures[..i])
        invariant threadsIdsVariableName == old(threadsIdsVariableName) && methodBody == old(methodBody)
      {
        var item := captures[i];
        variableFields := variableFields + [item.fieldInfo];
        var typeName := table.getMappedName(item.fieldInfo.fieldType);
        fieldsList := fieldsList + [CapturedFieldInfo(item.fieldInfo.fieldType, typeName, item.name)];
        assert StaticVariableFields(captures[..i + 1]) == StaticVariableFields(captures[..i]) + [item.fieldInfo];
        assert StaticCapturedFields(table, captures[..i + 1])
            == StaticCapturedFields(table, captures[..i]) + [CapturedFieldInfo(item.fieldInfo.fieldType, typeName, item.name)];
        i := i + 1;
      }
      assert captures[..i] == captures;

      if rewritten.parameterNames == [] {
        return Fail(ArgumentOutOfRange);
      }
      threadsIdsVariableName := rewritten.parameterNames[0];
      methodBody := rewritten.body;

      methodBody := StripNumericSuffixes(methodBody);
      methodBody := TrimEnd(methodBody);
      methodBody := RenameVector(methodBody);
      return Pass;
    }

    /** The root parameters, one per descriptor range; computed on first use, then cached. */
    method RootParameters() returns (r: seq<RootParameter>)
      requires CacheValid()
      modifies this`rootParameters
      ensures CacheValid() && rootParameters == Some(r)
      ensures r == RootParametersOf(descriptorRanges)
      ensures old(rootParameters).Some? ==> r == old(rootParameters).value
    {
      if rootParameters.None? {
        rootParameters := Some(RootParametersOf(descriptorRanges));
      }
      r := rootParameters.value;
    }

    /**
      The captured buffers of a closure instance, each with its root
      parameter index: buffer `i` goes to index `i + 1`, whose descriptor
      range is the one recorded for it, and index 0 is left to the constant
      buffer of scalars and vectors.
    */
    function GetBuffers<V>(target: FieldInfo -> V): (r: seq<(int, V)>)
      reads this
      ensures |r| == |bufferFields|
      ensures forall i :: 0 <= i < |r| ==> r[i].0 == i + 1 && r[i].1 == target(bufferFields[i])
      ensures RangesMatchBuffers(descriptorRanges, buffersList) ==>
        forall i :: 0 <= i < |r| && i < |buffersList| ==>
          1 <= r[i].0 < |descriptorRanges| && descriptorRanges[r[i].0] == RangeOf(buffersList[i])
    {
      var fields := bufferFields;
      seq(|fields|, i requires 0 <= i < |fields| => (i + 1, target(fields[i])))
    }

    /** The captured scalar and vector values of a closure instance, in `FieldsList` order. */
    function GetVariables<V>(target: FieldInfo -> V): (r: seq<V>)
      reads this
      ensures |r| == |variableFields|
      ensures forall i :: 0 <= i < |r| ==> r[i] == target(variableFields[i])
    {
      var fields := variableFields;
      seq(|fields|, i requires 0 <= i < |fields| => target(fields[i]))
    }
  }
}
