/**
 * `UseDiscountHandler.ExecuteAsync`: redeems a discount code against the code table and
 * answers with one `UseDiscountResponsePacket`. The database is a class holding the rows;
 * the clock and the payload serializer are parameters.
 */
module UseDiscount {
  import opened Wrappers
  import opened Packets
  import opened Persistence
  import opened Connections

  /** `char.IsWhiteSpace`: tab to carriage return, U+0085, and the Unicode space, line and paragraph separators. */
  predicate IsWhiteSpace(c: char) {
    || ('\U{0009}' <= c <= '\U{000D}') || c == ' ' || c == '\U{0085}' || c == '\U{00A0}'
    || c == '\U{1680}' || ('\U{2000}' <= c <= '\U{200A}') || c == '\U{2028}' || c == '\U{2029}'
    || c == '\U{202F}' || c == '\U{205F}' || c == '\U{3000}'
  }

  /** `string.IsNullOrWhiteSpace`; the empty string counts as blank. */
  predicate IsNullOrWhiteSpace(s: Option<string>) {
    s.None? || forall i :: 0 <= i < |s.value| ==> IsWhiteSpace(s.value[i])
  }

  /** Which of the four branches a request takes. */
  datatype RedeemOutcome = Blank | NotFound | AlreadyUsed | Redeemed

  datatype Redemption = Redemption(outcome: RedeemOutcome, rows: seq<DiscountCode>)

  /**
   * The handler's decisions: a blank code is refused without a lookup, an unknown code or a
   * used one is refused and nothing is saved; otherwise the row is marked used, its
   * `UpdatedAt` set, and the table saved.
   */
  function Redeem(rows: seq<DiscountCode>, code: Option<string>, now: int): Redemption {
    if IsNullOrWhiteSpace(code) then Redemption(Blank, rows)
    else match FirstByCode(rows, code.value)
      case None => Redemption(NotFound, rows)
      case Some(i) =>
        if rows[i].used then Redemption(AlreadyUsed, rows)
        else Redemption(Redeemed, Save(rows, i, rows[i].(used := true, updatedAt := now)))
  }

  /** The reply: `true` exactly for a redemption. */
  function Reply(outcome: RedeemOutcome, serialize: PayloadRecord -> seq<byte>): NetworkPacket {
    CreateUseDiscountResponse(outcome == Redeemed, serialize)
  }

  /** Each branch happens exactly under its condition, and the table changes only in the last. */
  lemma RedeemOutcomes(rows: seq<DiscountCode>, code: Option<string>, now: int)
    ensures var r := Redeem(rows, code, now);
      && (r.outcome == Blank <==> IsNullOrWhiteSpace(code))
      && (r.outcome == NotFound <==> !IsNullOrWhiteSpace(code) && forall i :: 0 <= i < |rows| ==> rows[i].code != code.value)
      && (r.outcome == AlreadyUsed <==>
            !IsNullOrWhiteSpace(code) && (exists i :: 0 <= i < |rows| && rows[i].code == code.value && rows[i].used
                                           && forall j :: 0 <= j < i ==> rows[j].code != code.value))
      && (r.outcome != Redeemed ==> r.rows == rows)
  {
    if !IsNullOrWhiteSpace(code) {
      FirstByCodeFinds(rows, code.value);
      if FirstByCode(rows, code.value).Some? {
        var i := FirstByCode(rows, code.value).value;
        if rows[i].used {
          assert rows[i].code == code.value;
        }
      }
    }
  }

  /**
   * A redemption changes exactly the matched row, and in it only `Used` (now true) and
   * `UpdatedAt`; `UsedAt` keeps its value.
   */
  lemma RedeemChangesOnlyMatch(rows: seq<DiscountCode>, code: Option<string>, now: int)
    requires Redeem(rows, code, now).outcome == Redeemed
    ensures var r := Redeem(rows, code, now); var i := FirstByCode(rows, code.value).value;
      && |r.rows| == |rows| && rows[i].code == code.value && !rows[i].used
      && r.rows[i] == DiscountCode(rows[i].id, rows[i].code, true, rows[i].usedAt, rows[i].createdAt, now)
      && forall j :: 0 <= j < |rows| && j != i ==> r.rows[j] == rows[j]
  {
  }

  /** Redemption keeps the table invariant. */
  lemma RedeemKeepsInvariant(rows: seq<DiscountCode>, code: Option<string>, now: int)
    requires TableInvariant(rows)
    ensures TableInvariant(Redeem(rows, code, now).rows)
  {
    if Redeem(rows, code, now).outcome == Redeemed {
      var i := FirstByCode(rows, code.value).value;
      SaveKeepsInvariant(rows, i, rows[i].(used := true, updatedAt := now));
    }
  }

  /** Saving a row without changing codes leaves every lookup where it was. */
  lemma {:induction false} LookupAfterSave(rows: seq<DiscountCode>, i: nat, r: DiscountCode, code: string)
    requires i < |rows| && r.code == rows[i].code
    ensures FirstByCode(Save(rows, i, r), code) == FirstByCode(rows, code)
  {
    if rows[0].code != code && i > 0 {
      LookupAfterSave(rows[1..], i - 1, r, code);
      assert Save(rows, i, r)[1..] == Save(rows[1..], i - 1, r);
    }
  }

  /** The same code redeemed twice: the second request is told the code was already used. */
  lemma RedeemTwice(rows: seq<DiscountCode>, code: Option<string>, now: int, later: int)
    requires Redeem(rows, code, now).outcome == Redeemed
    ensures Redeem(Redeem(rows, code, now).rows, code, later).outcome == AlreadyUsed
  {
    var i := FirstByCode(rows, code.value).value;
    LookupAfterSave(rows, i, rows[i].(used := true, updatedAt := now), code.value);
  }

  /** The `DiscountCodes` set of the database context. */
  class CodeTable {
    var rows: seq<DiscountCode>

    constructor (rows: seq<DiscountCode>)
      ensures this.rows == rows
    {
      this.rows := rows;
    }
  }

  /** `ExecuteAsync`: applies `Redeem` to the table and sends exactly one reply on the connection. */
  method ExecuteAsync(db: CodeTable, connection: Connection, code: Option<string>, now: int,
                      serialize: PayloadRecord -> seq<byte>) returns (outcome: RedeemOutcome)
    requires connection.Valid()
    modifies db, connection, connection.packetsToSend
    ensures var r := Redeem(old(db.rows), code, now); outcome == r.outcome && db.rows == r.rows
    ensures connection.Valid()
    ensures var reply := Some(Reply(outcome, serialize));
      if |old(connection.packetsToSend.queue)| < connection.packetsToSend.capacity
      then connection.packetsToSend.queue == old(connection.packetsToSend.queue) + [reply] && connection.dropped == old(connection.dropped)
      else connection.packetsToSend.queue == old(connection.packetsToSend.queue) && connection.dropped == old(connection.dropped) + [reply]
    ensures connection.closed == old(connection.closed) && connection.onClose == old(connection.onClose)
    ensures connection.client == old(connection.client) && connection.tokenSource == old(connection.tokenSource)
    ensures connection.hasStream == old(connection.hasStream)
  {
    if IsNullOrWhiteSpace(code) {
      outcome := Blank;
    } else {
      var found := FirstByCode(db.rows, code.value);
      if found.None? {
        outcome := NotFound;
      } else if db.rows[found.value].used {
        outcome := AlreadyUsed;
      } else {
        var i := found.value;
        db.rows := Save(db.rows, i, db.rows[i].(used := true, updatedAt := now));
        outcome := Redeemed;
      }
    }
    connection.Send(Some(Reply(outcome, serialize)));
  }
}
