/** Request fields, responses and the column limits shared by both services. */
module Http {

  datatype Option<+T> = None | Some(value: T) {
    /** Python's `dict.get(key, default)` for a value that is `None` when missing. */
    function GetOr(default: T): T {
      match this
      case Some(v) => v
      case None => default
    }
  }

  /** A field of a JSON request body as `data.get(key)` sees it: the key is
      missing, present with `null`, or present with a value. */
  datatype Field<+T> = Absent | Null | Given(value: T)

  /** `data.get(key, default)`: the default replaces a MISSING key only; an
      explicit `null` stays `None` (SQL NULL once inserted). */
  function WithDefault<T>(f: Field<T>, default: T): Option<T> {
    match f
    case Absent => Some(default)
    case Null => None
    case Given(v) => Some(v)
  }

  /** Python truthiness of a string field: neither missing, nor null, nor "". */
  predicate NonEmptyText(f: Field<string>) {
    f.Given? && f.value != ""
  }

  /** Python truthiness of a numeric field: neither missing, nor null, nor 0. */
  predicate NonZero(f: Field<int>) {
    f.Given? && f.value != 0
  }

  /** A handler's `(jsonify(body), status)` pair. */
  datatype Response<+B> = Response(status: int, body: B)

  /** The length bound of a `VARCHAR(255)` column. */
  const VarcharLimit: nat := 255

  predicate FitsVarchar(s: string) {
    |s| <= VarcharLimit
  }

  /** The NUL character: psycopg2 refuses to put a string holding it into a
      query and raises `ValueError` before anything reaches the database. */
  const Nul: char := '\0'

  /** psycopg2 can send `s` as a query parameter. */
  predicate Sendable(s: string) {
    Nul !in s
  }

  /** What Postgres stores when `s` is assigned to a `VARCHAR(255)` column:
      a longer value is cut to the limit when every excess character is a
      space, and refused with a data error (`None`) otherwise. */
  function StoreVarchar(s: string): (r: Option<string>)
    ensures r.Some? <==> forall i :: VarcharLimit <= i < |s| ==> s[i] == ' '
    ensures r.Some? ==> FitsVarchar(r.value) && |r.value| <= |s| && r.value == s[..|r.value|]
    ensures r.Some? ==> forall i :: |r.value| <= i < |s| ==> s[i] == ' '
    ensures FitsVarchar(s) ==> r == Some(s)
    ensures r.Some? && !FitsVarchar(s) ==> r.value == s[..VarcharLimit]
  {
    if |s| <= VarcharLimit then Some(s)
    else if forall i | VarcharLimit <= i < |s| :: s[i] == ' ' then Some(s[..VarcharLimit])
    else None
  }
}
