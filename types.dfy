/** The export operator's vocabulary: the engine's logical types, column
    descriptors and identifiers, the cells a column vector hands out, the
    export configuration and the operator's error outcomes. */
module Types {

  newtype byte = x: int | 0 <= x < 256

  datatype Option<T> = None | Some(value: T)

  /** Element type of an embedding, tensor or sparse vector (`EmbeddingDataType`). */
  datatype ElemType =
    | ElemBit | ElemInt8 | ElemInt16 | ElemInt32 | ElemInt64
    | ElemFloat | ElemDouble | ElemUInt8 | ElemFloat16 | ElemBFloat16
    | ElemInvalid

  /** The engine's `LogicalType`, with the type information the export reads
      (element type and dimension of the vector kinds, index and value element
      types of a sparse vector). */
  datatype LogicalType =
    | Boolean | TinyInt | SmallInt | Integer | BigInt
    | Float16 | BFloat16 | Float | Double
    | Date | Time | DateTime | Timestamp | Varchar
    | Sparse(indexType: ElemType, dataType: ElemType)
    | Embedding(elem: ElemType, dimension: nat)
    | MultiVector(elem: ElemType, dimension: nat)
    | Tensor(elem: ElemType, dimension: nat)
    | TensorArray(elem: ElemType, dimension: nat)
    | RowID | Interval | HugeInt | Decimal | Array | Tuple
    | Point | Line | LineSeg | Box | Circle | Uuid
    | Mixed | Null | Missing | EmptyArray | Invalid

  datatype ColumnDef = ColumnDef(name: string, ty: LogicalType)

  /** A selected column: an index into the schema, or one of the three
      synthetic identifiers resolved against block metadata. */
  datatype ColumnId = Ordinary(index: nat) | RowIdColumn | CreateColumn | DeleteColumn

  /** A cell handed out by `ColumnVector::GetValue`: a stored value (its
      logical type and opaque payload bytes), a synthesized row id, or a
      version timestamp. Rendering a cell (text, JSON, Arrow) is foreign and
      enters the model as a parameter. */
  datatype Value =
    | Cell(ty: LogicalType, data: seq<byte>)
    | RowIdValue(segmentId: nat, segmentOffset: nat)
    | TimestampValue(ts: nat)

  datatype ExportError =
    | UnmatchedRowCount      // a column vector's length differs from its block's row count
    | FvecsColumnCount       // FVECS export with other than one selected column
    | FvecsNotEmbedding      // FVECS export of a column that is not an embedding
    | FvecsNotFloat          // FVECS export of an embedding whose elements are not float
    | IndexTypeInvalid       // sparse index element type outside int8..int64
    | DataTypeInvalid        // sparse value element type invalid
    | EmbeddingElemInvalid   // vector element type kElemInvalid
    | InvalidDataType        // logical type the columnar format cannot hold

  datatype Result<T> = Ok(value: T) | Err(error: ExportError)

  /** The operator's configuration: output path, requested columns (empty means
      all schema columns), offset, limit (0: none), rows per file (0: no
      splitting), and for delimited text the header flag and the delimiter. */
  datatype ExportConfig = ExportConfig(
    path: string,
    columns: seq<ColumnId>,
    offset: nat,
    limit: nat,
    rowLimit: nat,
    header: bool,
    delimiter: char)
}
