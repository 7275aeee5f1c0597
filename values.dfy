/**
 Values shared by every step of the batch refresh: field names, the values an
 attribute or a raw column can hold, rows, key tuples and the ways a refresh
 can fail.
 */
module Values {

  /** One canonical field-name type (column names and attribute names alike). */
  type Field = string

  /** A field value as stored on a record or returned by the store; `Nil` is Ruby's `nil`. */
  datatype Value = Nil | Int(i: int) | Text(s: string) | Bool(b: bool)

  /** A record's attribute map, and a fresh row as returned by the store. */
  type Attrs = map<Field, Value>
  type Row = map<Field, Value>

  /** The ordered values of the key fields of one record or one row. */
  type Tuple = seq<Value>

  /** The column type cast applied to a raw column value (line 42 of lib/activerecord-import/synchronize.rb). */
  type Coercion = (Field, Value) -> Value

  /**
   Why a refresh stops early:
   - MissingAttribute: reading a key field from an instance raised (no such attribute);
   - UnknownColumn: a key field names no column of the record's class, so the
     column lookup found nothing and the type cast raised;
   - QueryFailed: the store reported an error for the query.
   */
  datatype Failure = MissingAttribute(field: Field) | UnknownColumn(field: Field) | QueryFailed

  datatype Result<T> = Ok(value: T) | Err(failure: Failure)

  datatype Option<T> = None | Some(value: T)
}
