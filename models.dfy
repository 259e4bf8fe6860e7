/**
 * The values the core passes around: column values as the data reader boxes
 * them, rows as column-name-to-value dictionaries, and the run configuration
 * (DataFiller/Models/Configuration.cs).
 */
module Models {
  import opened Integers

  /**
   * A boxed column value. The rewrite of identity columns distinguishes
   * System.Int32, System.Int64 and System.String; every other boxed type the
   * reader can produce (DBNull, Guid, decimal, DateTime, bool, ...) is `Other`.
   */
  datatype Value =
    | Int(i: int32)
    | Long(l: int64)
    | Str(s: string)
    | Other(typeName: string, text: string)

  /** One row: column name to value (Dictionary<string, object>). */
  type Row = map<string, Value>

  /** The run configuration; the thread count is not part of it. */
  datatype Configuration = Configuration(
    connectionString: string,
    batchSize: int32,
    tableMappings: map<string, int32>)

  /** `new Configuration()`: empty connection string, batch size 1000, no tables. */
  const DefaultConfiguration := Configuration("", 1000, map[])
}
