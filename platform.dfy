/** The pieces of .NET and Entity Framework Core the bookstore core relies on. */
module Platform {
  import opened Wrappers

  /** System.Guid: a 128-bit identifier. */
  newtype Guid = x: int | 0 <= x < 0x1_0000_0000_0000_0000_0000_0000_0000_0000

  /** char.IsWhiteSpace: the characters with Unicode's White_Space property (all in the BMP). */
  predicate IsWhiteSpace(c: char) {
    || c == ' '
    || '\t' <= c <= '\r'
    || c == '\U{0085}' || c == '\U{00A0}' || c == '\U{1680}'
    || '\U{2000}' <= c <= '\U{200A}'
    || c == '\U{2028}' || c == '\U{2029}' || c == '\U{202F}' || c == '\U{205F}' || c == '\U{3000}'
  }

  /** string.IsNullOrWhiteSpace: null, empty, or made only of white-space characters. */
  predicate IsNullOrWhiteSpace(s: Option<string>) {
    s.None? || forall i :: 0 <= i < |s.value| ==> IsWhiteSpace(s.value[i])
  }

  /** A non-null string with at least one non-white-space character. */
  predicate HasText(s: string) {
    !IsNullOrWhiteSpace(Some(s))
  }

  /** Why the relational store refuses to save a change. */
  datatype Violation =
    | DuplicateKey      // a row with that primary key already exists
    | RowMissing        // an update or delete found no row (DbUpdateConcurrencyException)
    | ValueTooLong      // a string exceeds its column's maximum length
    | MissingReference  // a foreign key names no row of the principal table
    | StillReferenced   // a restrict-on-delete foreign key still points at the row

  /** The exceptions the core can throw. */
  datatype Exception =
    | ArgumentException(message: string, paramName: string)
    | DbUpdateException(violation: Violation)
}
