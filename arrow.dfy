/** The columnar type mapping `GetArrowType`: from the engine's logical types
    to the small Arrow type algebra the Parquet writer is given (primitives,
    `list`, `fixed_size_list`, `struct`), with an error for the logical types
    the columnar format cannot hold. Also the type of the array builder that
    `BuildArrowArray` makes for a column, which must agree with the schema. */
module Arrow {
  import Types

  datatype ArrowType =
    | Boolean | Int8 | Int16 | Int32 | Int64 | UInt8
    | Float16 | Float32 | Float64
    | Date32 | Time32Seconds | TimestampSeconds | Utf8
    | List(elem: ArrowType)
    | FixedSizeList(item: ArrowType, size: nat)
    | Struct(fields: seq<Field>)

  datatype Field = Field(name: string, ty: ArrowType)

  /** Element type of an embedding, multi-vector, tensor or tensor array. */
  function EmbeddingElemType(e: Types.ElemType): Types.Result<ArrowType>
  {
    match e
    case ElemBit => Types.Ok(Boolean)
    case ElemInt8 => Types.Ok(Int8)
    case ElemInt16 => Types.Ok(Int16)
    case ElemInt32 => Types.Ok(Int32)
    case ElemInt64 => Types.Ok(Int64)
    case ElemFloat => Types.Ok(Float32)
    case ElemDouble => Types.Ok(Float64)
    case ElemUInt8 => Types.Ok(UInt8)
    case ElemFloat16 => Types.Ok(Float16)
    case ElemBFloat16 => Types.Ok(Float32)
    case ElemInvalid => Types.Err(Types.EmbeddingElemInvalid)
  }

  /** The `index` field of a sparse column: a list of a signed integer type. */
  function SparseIndexType(e: Types.ElemType): Types.Result<ArrowType>
  {
    match e
    case ElemInt8 => Types.Ok(List(Int8))
    case ElemInt16 => Types.Ok(List(Int16))
    case ElemInt32 => Types.Ok(List(Int32))
    case ElemInt64 => Types.Ok(List(Int64))
    case _ => Types.Err(Types.IndexTypeInvalid)
  }

  /** The `value` field of a sparse column; none for a bit (pattern-only)
      sparse vector. */
  function SparseValueType(e: Types.ElemType): Types.Result<Types.Option<ArrowType>>
  {
    match e
    case ElemBit => Types.Ok(Types.None)
    case ElemInt8 => Types.Ok(Types.Some(List(Int8)))
    case ElemInt16 => Types.Ok(Types.Some(List(Int16)))
    case ElemInt32 => Types.Ok(Types.Some(List(Int32)))
    case ElemInt64 => Types.Ok(Types.Some(List(Int64)))
    case ElemFloat => Types.Ok(Types.Some(List(Float32)))
    case ElemDouble => Types.Ok(Types.Some(List(Float64)))
    case ElemUInt8 => Types.Ok(Types.Some(List(UInt8)))
    case ElemFloat16 => Types.Ok(Types.Some(List(Float16)))
    case ElemBFloat16 => Types.Ok(Types.Some(List(Float32)))
    case ElemInvalid => Types.Err(Types.DataTypeInvalid)
  }

  function SparseType(indexType: Types.ElemType, dataType: Types.ElemType): Types.Result<ArrowType>
  {
    match SparseIndexType(indexType)
    case Err(e) => Types.Err(e)
    case Ok(index) =>
      match SparseValueType(dataType)
      case Err(e) => Types.Err(e)
      case Ok(None) => Types.Ok(Struct([Field("index", index)]))
      case Ok(Some(value)) => Types.Ok(Struct([Field("index", index), Field("value", value)]))
  }

  /** The vector kinds: `fixed_size_list(elem, dimension)` for an embedding,
      wrapped in one `list` for a tensor or multi-vector and in two for a
      tensor array. */
  function VectorType(ty: Types.LogicalType): Types.Result<ArrowType>
    requires ty.Embedding? || ty.MultiVector? || ty.Tensor? || ty.TensorArray?
  {
    match EmbeddingElemType(ty.elem)
    case Err(e) => Types.Err(e)
    case Ok(elem) =>
      var embedding := FixedSizeList(elem, ty.dimension);
      if ty.Embedding? then Types.Ok(embedding)
      else if ty.Tensor? || ty.MultiVector? then Types.Ok(List(embedding))
      else Types.Ok(List(List(embedding)))
  }

  /** The mapping succeeds exactly on the exportable types; the failure says
      which part of the type was rejected. */
  function GetArrowType(ty: Types.LogicalType): (r: Types.Result<ArrowType>)
    ensures r.Ok? <==> Exportable(ty)
    ensures r.Err? && ty.Sparse? ==>
      r.error == (if SparseIndexType(ty.indexType).Err? then Types.IndexTypeInvalid else Types.DataTypeInvalid)
    ensures r.Err? && (ty.Embedding? || ty.MultiVector? || ty.Tensor? || ty.TensorArray?) ==>
      r.error == Types.EmbeddingElemInvalid
    ensures r.Err? && !ty.Sparse? && !(ty.Embedding? || ty.MultiVector? || ty.Tensor? || ty.TensorArray?) ==>
      r.error == Types.InvalidDataType
  {
    match ty
    case Boolean => Types.Ok(Boolean)
    case TinyInt => Types.Ok(Int8)
    case SmallInt => Types.Ok(Int16)
    case Integer => Types.Ok(Int32)
    case BigInt => Types.Ok(Int64)
    case Float16 => Types.Ok(Float16)
    case BFloat16 => Types.Ok(Float32)
    case Float => Types.Ok(Float32)
    case Double => Types.Ok(Float64)
    case Date => Types.Ok(Date32)
    case Time => Types.Ok(Time32Seconds)
    case DateTime => Types.Ok(TimestampSeconds)
    case Timestamp => Types.Ok(TimestampSeconds)
    case Varchar => Types.Ok(Utf8)
    case Sparse(i, d) => SparseType(i, d)
    case Embedding(_, _) => VectorType(ty)
    case MultiVector(_, _) => VectorType(ty)
    case Tensor(_, _) => VectorType(ty)
    case TensorArray(_, _) => VectorType(ty)
    case _ => Types.Err(Types.InvalidDataType)
  }

  /** The logical types the columnar exporter accepts, stated independently
      of the mapping. */
  predicate Exportable(ty: Types.LogicalType)
  {
    || ty.Boolean? || ty.TinyInt? || ty.SmallInt? || ty.Integer? || ty.BigInt?
    || ty.Float16? || ty.BFloat16? || ty.Float? || ty.Double?
    || ty.Date? || ty.Time? || ty.DateTime? || ty.Timestamp? || ty.Varchar?
    || (ty.Sparse? && ty.indexType in {Types.ElemInt8, Types.ElemInt16, Types.ElemInt32, Types.ElemInt64}
                   && ty.dataType != Types.ElemInvalid)
    || ((ty.Embedding? || ty.MultiVector? || ty.Tensor? || ty.TensorArray?) && ty.elem != Types.ElemInvalid)
  }

  /** Multi-vectors and tensors are lists of the embedding type of the same
      element type and dimension; tensor arrays are lists of tensors. */
  lemma VectorNesting(e: Types.ElemType, d: nat)
    requires e != Types.ElemInvalid
    ensures GetArrowType(Types.Embedding(e, d)) == Types.Ok(FixedSizeList(EmbeddingElemType(e).value, d))
    ensures GetArrowType(Types.Tensor(e, d)) == Types.Ok(List(GetArrowType(Types.Embedding(e, d)).value))
    ensures GetArrowType(Types.MultiVector(e, d)) == GetArrowType(Types.Tensor(e, d))
    ensures GetArrowType(Types.TensorArray(e, d)) == Types.Ok(List(GetArrowType(Types.Tensor(e, d)).value))
  {
  }

  /** A sparse column is a struct whose first field is `index`, a list of
      the index type; it has a second field `value` exactly when the value
      type is not bit, and that field is a list of the element type an
      embedding of that value type would have. */
  lemma SparseLayout(i: Types.ElemType, d: Types.ElemType)
    requires GetArrowType(Types.Sparse(i, d)).Ok?
    ensures var s := GetArrowType(Types.Sparse(i, d)).value;
      && s.Struct?
      && |s.fields| == (if d == Types.ElemBit then 1 else 2)
      && s.fields[0] == Field("index", List(EmbeddingElemType(i).value))
      && (d != Types.ElemBit ==> s.fields[1] == Field("value", List(EmbeddingElemType(d).value)))
  {
  }

  /** Brain-float columns and brain-float elements are widened to 32-bit floats. */
  lemma BFloat16Widened(d: nat)
    ensures GetArrowType(Types.BFloat16) == GetArrowType(Types.Float) == Types.Ok(Float32)
    ensures GetArrowType(Types.Embedding(Types.ElemBFloat16, d)) == GetArrowType(Types.Embedding(Types.ElemFloat, d))
    ensures GetArrowType(Types.Sparse(Types.ElemInt32, Types.ElemBFloat16)) == GetArrowType(Types.Sparse(Types.ElemInt32, Types.ElemFloat))
  {
  }

  /** The Arrow array builders `BuildArrowArray` makes. A builder made with an
      explicit type (time, timestamp, struct) carries that type; a list
      builder wraps the builder of its items; a struct builder holds its
      declared struct type and its field builders. */
  datatype Builder =
    | BooleanBuilder | Int8Builder | Int16Builder | Int32Builder | Int64Builder | UInt8Builder
    | HalfFloatBuilder | FloatBuilder | DoubleBuilder | Date32Builder
    | Time32Builder(timeType: ArrowType)
    | TimestampBuilder(timestampType: ArrowType)
    | StringBuilder
    | ListBuilder(valueBuilder: Builder)
    | FixedSizeListBuilder(valueBuilder: Builder, listSize: nat)
    | StructBuilder(structType: ArrowType, fieldBuilders: seq<Builder>)

  /** `builder->type()`: the type of the array a builder finishes. */
  function TypeOfBuilder(b: Builder): ArrowType
  {
    match b
    case BooleanBuilder => Boolean
    case Int8Builder => Int8
    case Int16Builder => Int16
    case Int32Builder => Int32
    case Int64Builder => Int64
    case UInt8Builder => UInt8
    case HalfFloatBuilder => Float16
    case FloatBuilder => Float32
    case DoubleBuilder => Float64
    case Date32Builder => Date32
    case Time32Builder(t) => t
    case TimestampBuilder(t) => t
    case StringBuilder => Utf8
    case ListBuilder(v) => List(TypeOfBuilder(v))
    case FixedSizeListBuilder(v, n) => FixedSizeList(TypeOfBuilder(v), n)
    case StructBuilder(t, _) => t
  }

  /** A struct builder's declared type has one field per field builder, of
      that builder's type, all the way down. */
  predicate Consistent(b: Builder)
  {
    match b
    case ListBuilder(v) => Consistent(v)
    case FixedSizeListBuilder(v, _) => Consistent(v)
    case StructBuilder(t, children) =>
      && t.Struct?
      && |t.fields| == |children|
      && forall k :: 0 <= k < |children| ==> t.fields[k].ty == TypeOfBuilder(children[k]) && Consistent(children[k])
    case _ => true
  }

  /** The builder of a scalar column; none for the other kinds. */
  function PrimitiveBuilder(ty: Types.LogicalType): Types.Option<Builder>
  {
    match ty
    case Boolean => Types.Some(BooleanBuilder)
    case TinyInt => Types.Some(Int8Builder)
    case SmallInt => Types.Some(Int16Builder)
    case Integer => Types.Some(Int32Builder)
    case BigInt => Types.Some(Int64Builder)
    case Float => Types.Some(FloatBuilder)
    case Double => Types.Some(DoubleBuilder)
    case Float16 => Types.Some(HalfFloatBuilder)
    case BFloat16 => Types.Some(FloatBuilder)
    case Date => Types.Some(Date32Builder)
    case Time => Types.Some(Time32Builder(Time32Seconds))
    case DateTime => Types.Some(TimestampBuilder(TimestampSeconds))
    case Timestamp => Types.Some(TimestampBuilder(TimestampSeconds))
    case Varchar => Types.Some(StringBuilder)
    case _ => Types.None
  }

  /** The `index` builder of a sparse column: a list builder over a signed
      integer builder. */
  function SparseIndexBuilder(e: Types.ElemType): Types.Result<Builder>
  {
    match e
    case ElemInt8 => Types.Ok(ListBuilder(Int8Builder))
    case ElemInt16 => Types.Ok(ListBuilder(Int16Builder))
    case ElemInt32 => Types.Ok(ListBuilder(Int32Builder))
    case ElemInt64 => Types.Ok(ListBuilder(Int64Builder))
    case _ => Types.Err(Types.IndexTypeInvalid)
  }

  /** The `value` builder of a sparse column; none for a bit value type,
      where the code leaves `value_builder` null. */
  function SparseValueBuilder(e: Types.ElemType): Types.Result<Types.Option<Builder>>
  {
    match e
    case ElemBit => Types.Ok(Types.None)
    case ElemInt8 => Types.Ok(Types.Some(ListBuilder(Int8Builder)))
    case ElemInt16 => Types.Ok(Types.Some(ListBuilder(Int16Builder)))
    case ElemInt32 => Types.Ok(Types.Some(ListBuilder(Int32Builder)))
    case ElemInt64 => Types.Ok(Types.Some(ListBuilder(Int64Builder)))
    case ElemFloat => Types.Ok(Types.Some(ListBuilder(FloatBuilder)))
    case ElemDouble => Types.Ok(Types.Some(ListBuilder(DoubleBuilder)))
    case ElemUInt8 => Types.Ok(Types.Some(ListBuilder(UInt8Builder)))
    case ElemFloat16 => Types.Ok(Types.Some(ListBuilder(HalfFloatBuilder)))
    case ElemBFloat16 => Types.Ok(Types.Some(ListBuilder(FloatBuilder)))
    case ElemInvalid => Types.Err(Types.DataTypeInvalid)
  }

  /** The element builder of an embedding, multi-vector, tensor or tensor array. */
  function ElementBuilder(e: Types.ElemType): Types.Result<Builder>
  {
    match e
    case ElemBit => Types.Ok(BooleanBuilder)
    case ElemInt8 => Types.Ok(Int8Builder)
    case ElemInt16 => Types.Ok(Int16Builder)
    case ElemInt32 => Types.Ok(Int32Builder)
    case ElemInt64 => Types.Ok(Int64Builder)
    case ElemFloat => Types.Ok(FloatBuilder)
    case ElemDouble => Types.Ok(DoubleBuilder)
    case ElemUInt8 => Types.Ok(UInt8Builder)
    case ElemFloat16 => Types.Ok(HalfFloatBuilder)
    case ElemBFloat16 => Types.Ok(FloatBuilder)
    case ElemInvalid => Types.Err(Types.EmbeddingElemInvalid)
  }

  /** A fixed-size list builder of `dimension` elements for an embedding,
      wrapped in one list builder for a tensor or multi-vector and in two
      for a tensor array. */
  function VectorBuilder(ty: Types.LogicalType): Types.Result<Builder>
    requires ty.Embedding? || ty.MultiVector? || ty.Tensor? || ty.TensorArray?
  {
    match ElementBuilder(ty.elem)
    case Err(e) => Types.Err(e)
    case Ok(elem) =>
      var embedding := FixedSizeListBuilder(elem, ty.dimension);
      if ty.Embedding? then Types.Ok(embedding)
      else if ty.Tensor? || ty.MultiVector? then Types.Ok(ListBuilder(embedding))
      else Types.Ok(ListBuilder(ListBuilder(embedding)))
  }

  /** The element builders have the element types of `GetArrowType`. */
  lemma ElementBuilderAgrees(e: Types.ElemType)
    ensures ElementBuilder(e).Ok? <==> EmbeddingElemType(e).Ok?
    ensures ElementBuilder(e).Err? ==> ElementBuilder(e).error == EmbeddingElemType(e).error
    ensures ElementBuilder(e).Ok? ==>
      TypeOfBuilder(ElementBuilder(e).value) == EmbeddingElemType(e).value && Consistent(ElementBuilder(e).value)
  {
  }

  /** The nested list builders of the vector kinds have the vector types. */
  lemma VectorBuilderAgrees(ty: Types.LogicalType)
    requires ty.Embedding? || ty.MultiVector? || ty.Tensor? || ty.TensorArray?
    ensures VectorBuilder(ty).Ok? <==> VectorType(ty).Ok?
    ensures VectorBuilder(ty).Err? ==> VectorBuilder(ty).error == VectorType(ty).error
    ensures VectorBuilder(ty).Ok? ==>
      TypeOfBuilder(VectorBuilder(ty).value) == VectorType(ty).value && Consistent(VectorBuilder(ty).value)
  {
    ElementBuilderAgrees(ty.elem);
    if ElementBuilder(ty.elem).Ok? {
      var embedding := FixedSizeListBuilder(ElementBuilder(ty.elem).value, ty.dimension);
      assert TypeOfBuilder(embedding) == FixedSizeList(EmbeddingElemType(ty.elem).value, ty.dimension);
      assert TypeOfBuilder(ListBuilder(ListBuilder(embedding))) == List(List(TypeOfBuilder(embedding)));
      assert Consistent(ListBuilder(ListBuilder(embedding)));
    }
  }

  /** The scalar builders have the scalar types, and exist exactly for the
      kinds the schema step maps to a primitive. */
  lemma PrimitiveBuilderAgrees(ty: Types.LogicalType)
    requires !ty.Sparse? && !(ty.Embedding? || ty.MultiVector? || ty.Tensor? || ty.TensorArray?)
    ensures PrimitiveBuilder(ty).Some? <==> GetArrowType(ty).Ok?
    ensures PrimitiveBuilder(ty).Some? ==>
      TypeOfBuilder(PrimitiveBuilder(ty).value) == GetArrowType(ty).value && Consistent(PrimitiveBuilder(ty).value)
  {
  }

  /** The sparse index builders have the `index` field types and fail on
      the same element types with the same error. */
  lemma SparseIndexBuilderAgrees(e: Types.ElemType)
    ensures SparseIndexBuilder(e).Ok? <==> SparseIndexType(e).Ok?
    ensures SparseIndexBuilder(e).Err? ==> SparseIndexBuilder(e).error == SparseIndexType(e).error
    ensures SparseIndexBuilder(e).Ok? ==>
      TypeOfBuilder(SparseIndexBuilder(e).value) == SparseIndexType(e).value && Consistent(SparseIndexBuilder(e).value)
  {
  }

  /** The sparse value builders have the `value` field types, are absent
      exactly when the field is, and fail on the same element type with the
      same error. */
  lemma SparseValueBuilderAgrees(e: Types.ElemType)
    ensures SparseValueBuilder(e).Ok? <==> SparseValueType(e).Ok?
    ensures SparseValueBuilder(e).Err? ==> SparseValueBuilder(e).error == SparseValueType(e).error
    ensures SparseValueBuilder(e).Ok? ==>
      && (SparseValueBuilder(e).value.Some? <==> SparseValueType(e).value.Some?)
      && (SparseValueBuilder(e).value.Some? ==>
            TypeOfBuilder(SparseValueBuilder(e).value.value) == SparseValueType(e).value.value
            && Consistent(SparseValueBuilder(e).value.value))
  {
  }

  /** What building a column's Arrow array yields: a builder, a rejected
      column type, or a null pointer dereference. */
  datatype BuilderOutcome = Built(builder: Builder) | Rejected(error: Types.ExportError) | NullDereference

  /** The sparse struct builder as written: its type is formed from
      `value_builder->type()` even when the value type is bit and
      `value_builder` was never set. */
  function SparseStructAsWritten(i: Types.ElemType, d: Types.ElemType): (r: BuilderOutcome)
    ensures r == NullDereference <==> SparseType(i, d).Ok? && d == Types.ElemBit
    ensures r.Rejected? <==> SparseType(i, d).Err?
    ensures r.Rejected? ==> r.error == SparseType(i, d).error
    ensures r.Built? ==> TypeOfBuilder(r.builder) == SparseType(i, d).value && Consistent(r.builder)
  {
    SparseIndexBuilderAgrees(i);
    SparseValueBuilderAgrees(d);
    match SparseIndexBuilder(i)
    case Err(e) => Rejected(e)
    case Ok(index) =>
      match SparseValueBuilder(d)
      case Err(e) => Rejected(e)
      case Ok(None) => NullDereference
      case Ok(Some(value)) =>
        Built(StructBuilder(Struct([Field("index", TypeOfBuilder(index)), Field("value", TypeOfBuilder(value))]), [index, value]))
  }

  /** The builder as `BuildArrowArray` makes it: it dereferences null
      exactly on the bit sparse columns the schema step accepts; otherwise
      it builds a consistent builder of the schema's type or rejects with
      the schema step's error. */
  function MakeBuilderAsWritten(ty: Types.LogicalType): (r: BuilderOutcome)
    ensures r == NullDereference <==> GetArrowType(ty).Ok? && ty.Sparse? && ty.dataType == Types.ElemBit
    ensures r.Rejected? <==> GetArrowType(ty).Err?
    ensures r.Rejected? ==> r.error == GetArrowType(ty).error
    ensures r.Built? ==> TypeOfBuilder(r.builder) == GetArrowType(ty).value && Consistent(r.builder)
  {
    if ty.Sparse? then
      SparseStructAsWritten(ty.indexType, ty.dataType)
    else if ty.Embedding? || ty.MultiVector? || ty.Tensor? || ty.TensorArray? then
      VectorBuilderAgrees(ty);
      match VectorBuilder(ty)
      case Ok(b) => Built(b)
      case Err(e) => Rejected(e)
    else
      PrimitiveBuilderAgrees(ty);
      match PrimitiveBuilder(ty)
      case Some(b) => Built(b)
      case None => Rejected(Types.InvalidDataType)
  }

  /** A bit sparse column passes the schema step and then dereferences the
      unset value builder when its first batch is built. */
  lemma SparseBitBuilderCrashes()
    ensures GetArrowType(Types.Sparse(Types.ElemInt32, Types.ElemBit)).Ok?
    ensures MakeBuilderAsWritten(Types.Sparse(Types.ElemInt32, Types.ElemBit)) == NullDereference
  {
  }

  /** The sparse struct builder formed from the builders actually present
      (the `field_builders` list): `index`, and `value` only when a value
      builder exists. */
  function SparseStruct(i: Types.ElemType, d: Types.ElemType): Types.Result<Builder>
  {
    match SparseIndexBuilder(i)
    case Err(e) => Types.Err(e)
    case Ok(index) =>
      match SparseValueBuilder(d)
      case Err(e) => Types.Err(e)
      case Ok(value) =>
        var children := [index] + (if value.Some? then [value.value] else []);
        var fields := [Field("index", TypeOfBuilder(index))] + (if value.Some? then [Field("value", TypeOfBuilder(value.value))] else []);
        Types.Ok(StructBuilder(Struct(fields), children))
  }

  /** The corrected sparse struct builder is consistent, has the schema's
      sparse type, and fails exactly where the schema step does. */
  lemma SparseStructMatches(i: Types.ElemType, d: Types.ElemType)
    ensures SparseStruct(i, d).Ok? <==> SparseType(i, d).Ok?
    ensures SparseStruct(i, d).Err? ==> SparseStruct(i, d).error == SparseType(i, d).error
    ensures SparseStruct(i, d).Ok? ==>
      TypeOfBuilder(SparseStruct(i, d).value) == SparseType(i, d).value && Consistent(SparseStruct(i, d).value)
  {
    SparseIndexBuilderAgrees(i);
    SparseValueBuilderAgrees(d);
    if SparseIndexBuilder(i).Err? {
      assert SparseStruct(i, d) == Types.Err(SparseIndexType(i).error);
    } else if SparseValueBuilder(d).Err? {
      assert SparseStruct(i, d) == Types.Err(SparseValueType(d).error);
    } else {
      var index := SparseIndexBuilder(i).value;
      var value := SparseValueBuilder(d).value;
      var children := [index] + (if value.Some? then [value.value] else []);
      var fields := [Field("index", TypeOfBuilder(index))] + (if value.Some? then [Field("value", TypeOfBuilder(value.value))] else []);
      assert SparseStruct(i, d) == Types.Ok(StructBuilder(Struct(fields), children));
      var valueType := if value.Some? then Types.Some(TypeOfBuilder(value.value)) else Types.None;
      assert SparseType(i, d) == Types.Ok(Struct(
        if valueType.Some? then [Field("index", TypeOfBuilder(index)), Field("value", valueType.value)]
        else [Field("index", TypeOfBuilder(index))]));
      SparseFields(TypeOfBuilder(index), valueType);
      PresentFieldsConsistent(index, value);
    }
  }

  /** A struct builder over an index builder and an optional value builder,
      with one field per builder present, is consistent. */
  lemma PresentFieldsConsistent(index: Builder, value: Types.Option<Builder>)
    requires Consistent(index)
    requires value.Some? ==> Consistent(value.value)
    ensures
      var children := [index] + (if value.Some? then [value.value] else []);
      var fields := [Field("index", TypeOfBuilder(index))] + (if value.Some? then [Field("value", TypeOfBuilder(value.value))] else []);
      Consistent(StructBuilder(Struct(fields), children))
  {
  }

  lemma SparseFields(index: ArrowType, value: Types.Option<ArrowType>)
    ensures [Field("index", index)] + (if value.Some? then [Field("value", value.value)] else [])
      == if value.Some? then [Field("index", index), Field("value", value.value)] else [Field("index", index)]
  {
  }

  /** The builder with the corrected sparse struct. It never dereferences null. */
  function MakeBuilder(ty: Types.LogicalType): (r: BuilderOutcome)
    ensures r != NullDereference
  {
    if ty.Sparse? then
      match SparseStruct(ty.indexType, ty.dataType)
      case Ok(b) => Built(b)
      case Err(e) => Rejected(e)
    else if ty.Embedding? || ty.MultiVector? || ty.Tensor? || ty.TensorArray? then
      match VectorBuilder(ty)
      case Ok(b) => Built(b)
      case Err(e) => Rejected(e)
    else
      match PrimitiveBuilder(ty)
      case Some(b) => Built(b)
      case None => Rejected(Types.InvalidDataType)
  }

  /** Every array built for a column has the type its schema field
      declares, from a builder whose struct types match their field
      builders, so a record batch always matches the schema; and the builder
      rejects exactly what the schema step rejected, with its error. */
  lemma BuilderMatchesSchema(ty: Types.LogicalType)
    ensures GetArrowType(ty).Ok? ==>
      && MakeBuilder(ty).Built?
      && TypeOfBuilder(MakeBuilder(ty).builder) == GetArrowType(ty).value
      && Consistent(MakeBuilder(ty).builder)
    ensures GetArrowType(ty).Err? ==> MakeBuilder(ty) == Rejected(GetArrowType(ty).error)
  {
    if ty.Sparse? {
      SparseStructMatches(ty.indexType, ty.dataType);
    } else if ty.Embedding? || ty.MultiVector? || ty.Tensor? || ty.TensorArray? {
      VectorBuilderAgrees(ty);
    } else {
      PrimitiveBuilderAgrees(ty);
    }
  }

  /** The as-written sparse struct equals the corrected one when the value
      type is not bit. */
  lemma SparseStructAgrees(i: Types.ElemType, d: Types.ElemType)
    requires d != Types.ElemBit
    ensures SparseStructAsWritten(i, d) == match SparseStruct(i, d) case Ok(b) => Built(b) case Err(e) => Rejected(e)
  {
    if SparseIndexBuilder(i).Ok? && SparseValueBuilder(d).Ok? {
      var index := SparseIndexBuilder(i).value;
      var value := SparseValueBuilder(d).value;
      assert [index] + [value.value] == [index, value.value];
      SparseFields(TypeOfBuilder(index), Types.Some(TypeOfBuilder(value.value)));
    }
  }

  /** The as-written builder differs from the corrected one only on bit
      sparse columns. */
  lemma AsWrittenAgreesElsewhere(ty: Types.LogicalType)
    requires !(ty.Sparse? && ty.dataType == Types.ElemBit)
    ensures MakeBuilderAsWritten(ty) == MakeBuilder(ty)
  {
    if ty.Sparse? {
      SparseStructAgrees(ty.indexType, ty.dataType);
    }
  }
}
