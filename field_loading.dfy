/**
  What `ShaderLoader.LoadFieldsInfo` computes, as functions over the closure
  type's field catalog, and what it guarantees about the lists it fills.
*/
module FieldLoading {
  import opened Results
  import opened Hlsl
  import opened Direct3D
  import opened Fields

  /** The message of the exception thrown for a closure type with a static field. */
  const EmptyShaderBody := "Empty shader body"

  /** The message of the exception thrown for a field of an unsupported type. */
  function UnsupportedFieldMessage(t: HostType): string
  {
    "Unsupported field of type " + t.fullName
  }

  /** The descriptor range type each kind of buffer is bound through. */
  function RangeTypeOf(kind: BufferKind): DescriptorRangeType
  {
    match kind
    case ConstantBuffer => ConstantBufferView
    case ReadOnlyBuffer => ShaderResourceView
    case ReadWriteBuffer => UnorderedAccessView
  }

  /** The descriptor range a captured buffer is bound through. */
  function RangeOf(b: BufferInfo): DescriptorRange
  {
    DescriptorRange(RangeTypeOf(b.kind), 1, b.bufferIndex)
  }

  /** The range reserved for the constant buffer of captured scalars and vectors. */
  const ReservedRange := DescriptorRange(ConstantBufferView, 1, 0)

  /** The first register a buffer kind hands out: constant buffer 0 is reserved. */
  function FirstRegister(kind: BufferKind): nat
  {
    if kind == ConstantBuffer then 1 else 0
  }

  /** The HLSL type name recorded for a buffer: a constant buffer records its element type. */
  function BufferTypeName(table: KnownTypes, kind: BufferKind, t: HostType): string
    requires kind == ConstantBuffer ==> |t.genericTypeArguments| > 0
  {
    if kind == ConstantBuffer then table.getMappedName(t.genericTypeArguments[0])
    else table.getMappedName(t)
  }

  /** The lists `LoadFieldsInfo` appends to, and its three local register counters. */
  datatype FieldTables = FieldTables(
    descriptorRanges: seq<DescriptorRange>,
    bufferFields: seq<FieldInfo>,
    buffersList: seq<BufferInfo>,
    variableFields: seq<FieldInfo>,
    fieldsList: seq<CapturedFieldInfo>,
    constantBuffersCount: nat,
    readOnlyBuffersCount: nat,
    readWriteBuffersCount: nat)
  {
    /** The counter of one buffer kind. */
    function Counter(kind: BufferKind): nat
    {
      match kind
      case ConstantBuffer => constantBuffersCount
      case ReadOnlyBuffer => readOnlyBuffersCount
      case ReadWriteBuffer => readWriteBuffersCount
    }

    /** The same tables with the counter of one buffer kind incremented. */
    function Bump(kind: BufferKind): FieldTables
    {
      match kind
      case ConstantBuffer => this.(constantBuffersCount := constantBuffersCount + 1)
      case ReadOnlyBuffer => this.(readOnlyBuffersCount := readOnlyBuffersCount + 1)
      case ReadWriteBuffer => this.(readWriteBuffersCount := readWriteBuffersCount + 1)
    }
  }

  /** The state before the first field: only the reserved range, constant buffer counter at 1. */
  function InitialTables(): FieldTables
  {
    FieldTables([ReservedRange], [], [], [], [], 1, 0, 0)
  }

  predicate HasStaticField(fields: seq<FieldInfo>)
  {
    exists i :: 0 <= i < |fields| && fields[i].isStatic
  }

  /** One iteration of the field loop: classify `f` and append it where it belongs. */
  function AddField(table: KnownTypes, t: FieldTables, f: FieldInfo): Result<FieldTables>
  {
    match Classify(table, f.fieldType)
    case Buffer(kind) =>
      if kind == ConstantBuffer && |f.fieldType.genericTypeArguments| == 0 then Err(IndexOutOfRange)
      else
        var register := t.Counter(kind);
        var info := BufferInfo(kind, f.fieldType, BufferTypeName(table, kind, f.fieldType), f.name, register);
        Ok(t.(descriptorRanges := t.descriptorRanges + [DescriptorRange(RangeTypeOf(kind), 1, register)],
              bufferFields := t.bufferFields + [f],
              buffersList := t.buffersList + [info]).Bump(kind))
    case ScalarOrVector =>
      Ok(t.(variableFields := t.variableFields + [f],
            fieldsList := t.fieldsList + [CapturedFieldInfo(f.fieldType, table.getMappedName(f.fieldType), f.name)]))
    case Unsupported =>
      Err(NotSupported(UnsupportedFieldMessage(f.fieldType)))
  }

  /** The field loop run over `fields` in declaration order; the first exception stops it. */
  function Scan(table: KnownTypes, fields: seq<FieldInfo>): Result<FieldTables>
    decreases |fields|
  {
    if fields == [] then Ok(InitialTables())
    else
      match Scan(table, fields[..|fields| - 1])
      case Err(e) => Err(e)
      case Ok(t) => AddField(table, t, fields[|fields| - 1])
  }

  /** `LoadFieldsInfo`: reject a closure type with a static field, then run the field loop. */
  function LoadFields(table: KnownTypes, fields: seq<FieldInfo>): Result<FieldTables>
  {
    if HasStaticField(fields) then Err(InvalidOperation(EmptyShaderBody))
    else Scan(table, fields)
  }

  // ---------------------------------------------------------------------------
  // Reference definitions

  /** The exception a single field makes the loader throw, if any. */
  function FieldError(table: KnownTypes, f: FieldInfo): Option<LoadError>
  {
    match Classify(table, f.fieldType)
    case Unsupported => Some(NotSupported(UnsupportedFieldMessage(f.fieldType)))
    case Buffer(kind) =>
      if kind == ConstantBuffer && f.fieldType.genericTypeArguments == [] then Some(IndexOutOfRange) else None
    case ScalarOrVector => None
  }

  /** The buffer-typed fields, in declaration order. */
  function BufferFieldsOf(table: KnownTypes, fields: seq<FieldInfo>): seq<FieldInfo>
  {
    if fields == [] then []
    else
      (if Classify(table, fields[0].fieldType).Buffer? then [fields[0]] else [])
      + BufferFieldsOf(table, fields[1..])
  }

  /** The scalar- and vector-typed fields, in declaration order. */
  function VariableFieldsOf(table: KnownTypes, fields: seq<FieldInfo>): seq<FieldInfo>
  {
    if fields == [] then []
    else
      (if Classify(table, fields[0].fieldType) == ScalarOrVector then [fields[0]] else [])
      + VariableFieldsOf(table, fields[1..])
  }

  /** How many of `buffers` are of kind `kind`. */
  function CountKind(buffers: seq<BufferInfo>, kind: BufferKind): nat
  {
    if buffers == [] then 0
    else CountKind(buffers[..|buffers| - 1], kind) + (if buffers[|buffers| - 1].kind == kind then 1 else 0)
  }

  /** `b` is the buffer description recorded for field `f`. */
  ghost predicate Describes(table: KnownTypes, b: BufferInfo, f: FieldInfo)
  {
    && Classify(table, f.fieldType) == Buffer(b.kind)
    && b.fieldType == f.fieldType
    && b.fieldName == f.name
    && (b.kind == ConstantBuffer ==> |f.fieldType.genericTypeArguments| > 0)
    && b.typeName == BufferTypeName(table, b.kind, f.fieldType)
  }

  /** Range `i + 1` binds buffer `i`, and range 0 is the reserved one. */
  ghost predicate RangesMatchBuffers(ranges: seq<DescriptorRange>, buffers: seq<BufferInfo>)
  {
    && |ranges| == 1 + |buffers|
    && ranges[0] == ReservedRange
    && forall i :: 0 <= i < |buffers| ==> ranges[i + 1] == RangeOf(buffers[i])
  }

  /** Each buffer's register is the first one of its kind plus the earlier buffers of that kind. */
  ghost predicate RegistersNumbered(buffers: seq<BufferInfo>)
  {
    forall i :: 0 <= i < |buffers| ==>
      buffers[i].bufferIndex == FirstRegister(buffers[i].kind) + CountKind(buffers[..i], buffers[i].kind)
  }

  /** Each counter holds the next free register of its kind. */
  ghost predicate CountersNext(t: FieldTables)
  {
    forall kind :: t.Counter(kind) == FirstRegister(kind) + CountKind(t.buffersList, kind)
  }

  /** Entry `i` of `FieldsList` describes scalar or vector field `i`. */
  ghost predicate VariablesDescribed(table: KnownTypes, fields: seq<FieldInfo>, captured: seq<CapturedFieldInfo>)
  {
    && |captured| == |fields|
    && forall i :: 0 <= i < |captured| ==>
         captured[i] == CapturedFieldInfo(fields[i].fieldType, table.getMappedName(fields[i].fieldType), fields[i].name)
  }

  /** Entry `i` of `BuffersList` describes buffer field `i`. */
  ghost predicate BuffersDescribed(table: KnownTypes, fields: seq<FieldInfo>, buffers: seq<BufferInfo>)
  {
    && |fields| == |buffers|
    && forall i :: 0 <= i < |buffers| ==> Describes(table, buffers[i], fields[i])
  }

  /** The facts every state of the field loop keeps. */
  ghost predicate Consistent(table: KnownTypes, t: FieldTables)
  {
    && RangesMatchBuffers(t.descriptorRanges, t.buffersList)
    && BuffersDescribed(table, t.bufferFields, t.buffersList)
    && VariablesDescribed(table, t.variableFields, t.fieldsList)
    && RegistersNumbered(t.buffersList)
    && CountersNext(t)
  }

  // ---------------------------------------------------------------------------
  // Properties of the field loop

  /** A static field rejects the closure type whatever its other fields are. */
  lemma StaticFieldRejects(table: KnownTypes, fields: seq<FieldInfo>, i: nat)
    requires i < |fields| && fields[i].isStatic
    ensures LoadFields(table, fields) == Err(InvalidOperation(EmptyShaderBody))
  {
  }

  /** Once the loop has thrown, later fields do not change the outcome. */
  lemma {:induction false} ScanErrorPersists(table: KnownTypes, fields: seq<FieldInfo>, j: nat)
    requires j <= |fields| && Scan(table, fields[..j]).Err?
    ensures Scan(table, fields) == Scan(table, fields[..j])
    decreases |fields| - j
  {
    if j < |fields| {
      var prefix := fields[..|fields| - 1];
      assert prefix[..j] == fields[..j];
      ScanErrorPersists(table, prefix, j);
    } else {
      assert fields[..j] == fields;
    }
  }

  /**
    The field loop fails exactly when some field is rejected, and then with
    the exception of the first rejected field in declaration order.
  */
  lemma {:induction false} ScanFailure(table: KnownTypes, fields: seq<FieldInfo>)
    ensures Scan(table, fields).Ok? <==> forall i :: 0 <= i < |fields| ==> FieldError(table, fields[i]).None?
    ensures Scan(table, fields).Err? ==>
      exists k :: 0 <= k < |fields| && FieldError(table, fields[k]) == Some(Scan(table, fields).error)
        && forall i :: 0 <= i < k ==> FieldError(table, fields[i]).None?
    decreases |fields|
  {
    if fields != [] {
      var n := |fields| - 1;
      var prefix := fields[..n];
      ScanFailure(table, prefix);
      assert forall i :: 0 <= i < n ==> prefix[i] == fields[i];
      match Scan(table, prefix)
      case Err(e) =>
        var k :| 0 <= k < |prefix| && FieldError(table, prefix[k]) == Some(e)
          && forall i :: 0 <= i < k ==> FieldError(table, prefix[i]).None?;
        assert FieldError(table, fields[k]) == Some(e);
      case Ok(t) =>
        if Scan(table, fields).Err? {
          assert FieldError(table, fields[n]) == Some(Scan(table, fields).error);
        }
    }
  }

  lemma CountKindAppend(buffers: seq<BufferInfo>, b: BufferInfo, kind: BufferKind)
    ensures CountKind(buffers + [b], kind) == CountKind(buffers, kind) + (if b.kind == kind then 1 else 0)
  {
    assert (buffers + [b])[..|buffers|] == buffers;
  }

  lemma NumberedAppend(buffers: seq<BufferInfo>, b: BufferInfo)
    requires RegistersNumbered(buffers)
    requires b.bufferIndex == FirstRegister(b.kind) + CountKind(buffers, b.kind)
    ensures RegistersNumbered(buffers + [b])
  {
    var n := |buffers|;
    var s := buffers + [b];
    forall i | 0 <= i < |s|
      ensures s[i].bufferIndex == FirstRegister(s[i].kind) + CountKind(s[..i], s[i].kind)
    {
      if i < n {
        assert s[..i] == buffers[..i];
      } else {
        assert s[..i] == buffers;
      }
    }
  }

  lemma RangesAppend(ranges: seq<DescriptorRange>, buffers: seq<BufferInfo>, b: BufferInfo)
    requires RangesMatchBuffers(ranges, buffers)
    ensures RangesMatchBuffers(ranges + [RangeOf(b)], buffers + [b])
  {
  }

  lemma BuffersDescribedAppend(table: KnownTypes, fields: seq<FieldInfo>, buffers: seq<BufferInfo>, f: FieldInfo, b: BufferInfo)
    requires BuffersDescribed(table, fields, buffers) && Describes(table, b, f)
    ensures BuffersDescribed(table, fields + [f], buffers + [b])
  {
  }

  /** The tables a buffer field produces, field by field. */
  lemma AddBufferResult(table: KnownTypes, t: FieldTables, f: FieldInfo, kind: BufferKind)
    requires Classify(table, f.fieldType) == Buffer(kind)
    requires AddField(table, t, f).Ok?
    ensures var t' := AddField(table, t, f).value;
      var b := BufferInfo(kind, f.fieldType, BufferTypeName(table, kind, f.fieldType), f.name, t.Counter(kind));
      && Describes(table, b, f)
      && t'.descriptorRanges == t.descriptorRanges + [RangeOf(b)]
      && t'.bufferFields == t.bufferFields + [f]
      && t'.buffersList == t.buffersList + [b]
      && t'.variableFields == t.variableFields && t'.fieldsList == t.fieldsList
      && forall k :: t'.Counter(k) == t.Counter(k) + (if k == kind then 1 else 0)
  {
  }

  lemma AddBufferConsistent(table: KnownTypes, t: FieldTables, f: FieldInfo, kind: BufferKind)
    requires Consistent(table, t) && Classify(table, f.fieldType) == Buffer(kind)
    requires AddField(table, t, f).Ok?
    ensures Consistent(table, AddField(table, t, f).value)
  {
    var t' := AddField(table, t, f).value;
    var b := BufferInfo(kind, f.fieldType, BufferTypeName(table, kind, f.fieldType), f.name, t.Counter(kind));
    AddBufferResult(table, t, f, kind);
    assert CountersNext(t);
    RangesAppend(t.descriptorRanges, t.buffersList, b);
    NumberedAppend(t.buffersList, b);
    BuffersDescribedAppend(table, t.bufferFields, t.buffersList, f, b);
    forall k
      ensures t'.Counter(k) == FirstRegister(k) + CountKind(t'.buffersList, k)
    {
      CountKindAppend(t.buffersList, b, k);
    }
  }

  lemma AddFieldConsistent(table: KnownTypes, t: FieldTables, f: FieldInfo)
    requires Consistent(table, t) && AddField(table, t, f).Ok?
    ensures Consistent(table, AddField(table, t, f).value)
  {
    match Classify(table, f.fieldType)
    case Buffer(kind) => AddBufferConsistent(table, t, f, kind);
    case ScalarOrVector =>
    case Unsupported =>
  }

  /** Every state the field loop reaches, from the reserved range on, is consistent. */
  lemma {:induction false} ScanConsistent(table: KnownTypes, fields: seq<FieldInfo>)
    requires Scan(table, fields).Ok?
    ensures Consistent(table, Scan(table, fields).value)
    decreases |fields|
  {
    if fields != [] {
      var prefix := fields[..|fields| - 1];
      ScanConsistent(table, prefix);
      AddFieldConsistent(table, Scan(table, prefix).value, fields[|fields| - 1]);
    }
  }

  lemma {:induction false} BufferFieldsOfAppend(table: KnownTypes, fields: seq<FieldInfo>, f: FieldInfo)
    ensures BufferFieldsOf(table, fields + [f])
         == BufferFieldsOf(table, fields) + (if Classify(table, f.fieldType).Buffer? then [f] else [])
    decreases |fields|
  {
    if fields != [] {
      assert (fields + [f])[1..] == fields[1..] + [f];
      BufferFieldsOfAppend(table, fields[1..], f);
    }
  }

  lemma {:induction false} VariableFieldsOfAppend(table: KnownTypes, fields: seq<FieldInfo>, f: FieldInfo)
    ensures VariableFieldsOf(table, fields + [f])
         == VariableFieldsOf(table, fields) + (if Classify(table, f.fieldType) == ScalarOrVector then [f] else [])
    decreases |fields|
  {
    if fields != [] {
      assert (fields + [f])[1..] == fields[1..] + [f];
      VariableFieldsOfAppend(table, fields[1..], f);
    }
  }

  /**
    The field loop keeps declaration order: the buffer fields and the scalar
    and vector fields are exactly those of the closure type, in the order
    they are declared.
  */
  lemma {:induction false} ScanOrder(table: KnownTypes, fields: seq<FieldInfo>)
    requires Scan(table, fields).Ok?
    ensures Scan(table, fields).value.bufferFields == BufferFieldsOf(table, fields)
    ensures Scan(table, fields).value.variableFields == VariableFieldsOf(table, fields)
    decreases |fields|
  {
    if fields != [] {
      var n := |fields| - 1;
      var prefix := fields[..n];
      ScanOrder(table, prefix);
      assert prefix + [fields[n]] == fields;
      BufferFieldsOfAppend(table, prefix, fields[n]);
      VariableFieldsOfAppend(table, prefix, fields[n]);
    }
  }

  lemma {:induction false} CountKindMonotone(buffers: seq<BufferInfo>, kind: BufferKind, a: nat, b: nat)
    requires a <= b <= |buffers|
    ensures CountKind(buffers[..a], kind) <= CountKind(buffers[..b], kind)
    decreases b - a
  {
    if a < b {
      CountKindMonotone(buffers, kind, a, b - 1);
      assert buffers[..b][..b - 1] == buffers[..b - 1];
    }
  }

  /** Within one kind, registers increase strictly along the buffer list. */
  lemma NumberedIncreasing(buffers: seq<BufferInfo>, i: nat, j: nat)
    requires RegistersNumbered(buffers)
    requires i < j < |buffers| && buffers[i].kind == buffers[j].kind
    ensures buffers[i].bufferIndex < buffers[j].bufferIndex
  {
    var kind := buffers[i].kind;
    CountKindMonotone(buffers, kind, i + 1, j);
    assert buffers[..i + 1] == buffers[..i] + [buffers[i]];
    CountKindAppend(buffers[..i], buffers[i], kind);
  }

  lemma RangeTypeOfInjective(k1: BufferKind, k2: BufferKind)
    requires RangeTypeOf(k1) == RangeTypeOf(k2)
    ensures k1 == k2
  {
  }

  /**
    No two descriptor ranges of the same type share a register: the reserved
    range alone has constant buffer register 0, and within each kind the
    registers grow strictly in declaration order.
  */
  lemma DistinctRegisters(table: KnownTypes, t: FieldTables)
    requires Consistent(table, t)
    ensures forall i, j :: 0 <= i < j < |t.descriptorRanges|
              && t.descriptorRanges[i].rangeType == t.descriptorRanges[j].rangeType
              ==> t.descriptorRanges[i].baseShaderRegister < t.descriptorRanges[j].baseShaderRegister
  {
    var ranges, buffers := t.descriptorRanges, t.buffersList;
    assert RangesMatchBuffers(ranges, buffers) && RegistersNumbered(buffers);
    forall i, j | 0 <= i < j < |ranges| && ranges[i].rangeType == ranges[j].rangeType
      ensures ranges[i].baseShaderRegister < ranges[j].baseShaderRegister
    {
      RangePairOrdered(ranges, buffers, i, j);
    }
  }

  /** Two ranges of one type: the later one has the higher register. */
  lemma RangePairOrdered(ranges: seq<DescriptorRange>, buffers: seq<BufferInfo>, i: nat, j: nat)
    requires RangesMatchBuffers(ranges, buffers) && RegistersNumbered(buffers)
    requires i < j < |ranges| && ranges[i].rangeType == ranges[j].rangeType
    ensures ranges[i].baseShaderRegister < ranges[j].baseShaderRegister
  {
    var bj := buffers[j - 1];
    assert ranges[j] == RangeOf(bj);
    if i > 0 {
      var bi := buffers[i - 1];
      assert ranges[i] == RangeOf(bi);
      RangeTypeOfInjective(bi.kind, bj.kind);
      NumberedIncreasing(buffers, i - 1, j - 1);
    } else {
      assert bj.kind == ConstantBuffer;
    }
  }
}
