/**
 * The `DiscountCodes` table: the `DiscountCode` row, the constraints the schema puts on it
 * (key, length and pattern checks, unique index on `Code`), and the three table operations
 * the handlers use: insert, first-match lookup by code, and saving a changed row.
 */
module Persistence {
  import opened Wrappers

  /** A row. The `Guid` key is a number; timestamps are ticks; `UsedAt` is nullable. */
  datatype DiscountCode = DiscountCode(id: nat, code: string, used: bool, usedAt: Option<int>,
                                       createdAt: int, updatedAt: int)

  /** Character class `[A-Za-z0-9]`. */
  predicate IsAlphanumeric(c: char) {
    'A' <= c <= 'Z' || 'a' <= c <= 'z' || '0' <= c <= '9'
  }

  /** `CK_Code_Length` together with `StringLength(8, MinimumLength = 7)` and `HasMaxLength(8)`. */
  predicate LengthInRange(code: string) {
    7 <= |code| <= 8
  }

  /** `CK_Code_Alphanumeric`: the whole code matches `^[A-Za-z0-9]+$`. */
  predicate MatchesPattern(code: string) {
    |code| >= 1 && forall i :: 0 <= i < |code| ==> IsAlphanumeric(code[i])
  }

  predicate ValidCode(code: string) {
    LengthInRange(code) && MatchesPattern(code)
  }

  /** What the schema guarantees of every stored table: valid codes, distinct keys, distinct codes. */
  ghost predicate TableInvariant(rows: seq<DiscountCode>) {
    && (forall i :: 0 <= i < |rows| ==> ValidCode(rows[i].code))
    && (forall i, j :: 0 <= i < j < |rows| ==> rows[i].id != rows[j].id)
    && (forall i, j :: 0 <= i < j < |rows| ==> rows[i].code != rows[j].code)
  }

  /** A fresh entity: `Code` as given, `Used` defaults to false and `UsedAt` to null. */
  function NewRecord(id: nat, code: string, now: int): (r: DiscountCode)
    ensures r.id == id && r.code == code && !r.used && r.usedAt.None?
  {
    DiscountCode(id, code, false, None, now, now)
  }

  datatype InsertError = ConstraintViolation

  /** An insert the database accepts only when no constraint would be broken; it then appends the row. */
  function Insert(rows: seq<DiscountCode>, r: DiscountCode): Result<seq<DiscountCode>, InsertError> {
    if ValidCode(r.code) && (forall i :: 0 <= i < |rows| ==> rows[i].id != r.id && rows[i].code != r.code)
    then Success(rows + [r])
    else Failure(ConstraintViolation)
  }

  /** An insert succeeds exactly when the row is valid and new in key and code, and keeps the invariant. */
  lemma InsertKeepsInvariant(rows: seq<DiscountCode>, r: DiscountCode)
    requires TableInvariant(rows)
    ensures Insert(rows, r).Success? <==>
      ValidCode(r.code) && (forall i :: 0 <= i < |rows| ==> rows[i].id != r.id) && (forall i :: 0 <= i < |rows| ==> rows[i].code != r.code)
    ensures Insert(rows, r).Success? ==> Insert(rows, r).value == rows + [r] && TableInvariant(Insert(rows, r).value)
  {
    if Insert(rows, r).Success? {
      var rows' := rows + [r];
      forall i, j | 0 <= i < j < |rows'| ensures rows'[i].id != rows'[j].id && rows'[i].code != rows'[j].code {
        if j == |rows| {
          assert rows'[j] == r && rows'[i] == rows[i];
        }
      }
    }
  }

  /** `FirstOrDefaultAsync(d => d.Code == code)`: the index of the first row with that code. */
  function FirstByCode(rows: seq<DiscountCode>, code: string): (r: Option<nat>)
    ensures r.Some? ==> r.value < |rows| && rows[r.value].code == code
  {
    if rows == [] then None
    else if rows[0].code == code then Some(0)
    else match FirstByCode(rows[1..], code)
      case None => None
      case Some(k) => Some(k + 1)
  }

  /** The lookup misses exactly when no row has the code, and finds the first row that has it. */
  lemma {:induction false} FirstByCodeFinds(rows: seq<DiscountCode>, code: string)
    ensures FirstByCode(rows, code).None? <==> forall i :: 0 <= i < |rows| ==> rows[i].code != code
    ensures FirstByCode(rows, code).Some? ==> forall i :: 0 <= i < FirstByCode(rows, code).value ==> rows[i].code != code
  {
    if rows != [] && rows[0].code != code {
      FirstByCodeFinds(rows[1..], code);
      assert forall i :: 1 <= i < |rows| ==> rows[i] == rows[1..][i - 1];
    }
  }

  /** Under the unique index the first match is the only match. */
  lemma UniqueMatch(rows: seq<DiscountCode>, code: string, i: nat)
    requires TableInvariant(rows) && i < |rows| && rows[i].code == code
    ensures FirstByCode(rows, code) == Some(i)
  {
    FirstByCodeFinds(rows, code);
  }

  /** `SaveChangesAsync` after row `i` was changed in memory. */
  function Save(rows: seq<DiscountCode>, i: nat, r: DiscountCode): (rows': seq<DiscountCode>)
    requires i < |rows|
    ensures |rows'| == |rows| && rows'[i] == r
    ensures forall j :: 0 <= j < |rows| && j != i ==> rows'[j] == rows[j]
  {
    rows[i := r]
  }

  /** Saving a row that keeps its key and code keeps the invariant. */
  lemma SaveKeepsInvariant(rows: seq<DiscountCode>, i: nat, r: DiscountCode)
    requires TableInvariant(rows) && i < |rows| && r.id == rows[i].id && r.code == rows[i].code
    ensures TableInvariant(Save(rows, i, r))
  {
    var rows' := Save(rows, i, r);
    forall j | 0 <= j < |rows'| ensures rows'[j].id == rows[j].id && rows'[j].code == rows[j].code {
    }
  }
}
