/** endpoints/transaction.py: the transaction ledger, a table of rows kept
    in insertion order, with validated creation, an owner-scoped listing and
    a soft delete. */
module Ledger {
  import opened Http
  import opened Models

  const AmountDetail := "Amount should be greater than 0"
  const ReceiverDetail := "Receiver phone number must be 10 digits"
  const ProductDetail := "Please enter a valid product"
  const NoTransactionsDetail := "You do not have any transactions"
  const TransactionNotFoundDetail := "Transaction not found"
  const ForbiddenDetail := "You are not allowed to perform this action"

  /** Every rule of create_transaction that `req` breaks, each tested on its
      own, listed in the order the handler checks them. */
  function Violations(req: TransactionRequest): (r: seq<string>)
    ensures AmountDetail in r <==> req.amount <= 0
    ensures ReceiverDetail in r <==> |req.receiverPhone| != PhoneLength
    ensures ProductDetail in r <==> |req.product| <= 2
    ensures r != [] && req.amount <= 0 ==> r[0] == AmountDetail
    ensures r != [] && req.amount > 0 && |req.receiverPhone| != PhoneLength ==> r[0] == ReceiverDetail
    ensures r != [] && req.amount > 0 && |req.receiverPhone| == PhoneLength ==> r[0] == ProductDetail
  {
    (if req.amount <= 0 then [AmountDetail] else [])
    + (if |req.receiverPhone| != PhoneLength then [ReceiverDetail] else [])
    + (if |req.product| <= 2 then [ProductDetail] else [])
  }

  /** `id` is the primary key: no two rows share one. */
  ghost predicate UniqueIds(rows: seq<Transaction>) {
    forall i, j :: 0 <= i < j < |rows| ==> rows[i].id != rows[j].id
  }

  /** The WHERE clause of get_transactions. */
  predicate Listed(t: Transaction, phone: string) {
    t.senderPhone == phone && !t.deletedStatus
  }

  /** The rows get_transactions selects, in table order. */
  function Owned(rows: seq<Transaction>, phone: string): (r: seq<Transaction>)
    ensures |r| <= |rows|
    ensures forall t :: t in r ==> t in rows && Listed(t, phone)
    ensures forall i :: 0 <= i < |rows| && Listed(rows[i], phone) ==> rows[i] in r
  {
    if rows == [] then []
    else (if Listed(rows[0], phone) then [rows[0]] else []) + Owned(rows[1..], phone)
  }

  /** Selection commutes with concatenation: together with the one-row case
      this says the listing keeps exactly the matching rows in table order. */
  lemma {:induction false} OwnedAppend(a: seq<Transaction>, b: seq<Transaction>, phone: string)
    ensures Owned(a + b, phone) == Owned(a, phone) + Owned(b, phone)
  {
    if a == [] {
      assert a + b == b;
    } else {
      assert (a + b)[1..] == a[1..] + b;
      OwnedAppend(a[1..], b, phone);
    }
  }

  /** get_transactions: the caller's live rows, or the status-200 exception
      when there are none. */
  function ListTransactions(rows: seq<Transaction>, caller: User): (r: Response<seq<Transaction>>)
    ensures r.Err? <==> forall i :: 0 <= i < |rows| ==> !Listed(rows[i], caller.phone)
    ensures r.Err? ==> r == Err(StatusOk, NoTransactionsDetail)
    ensures r.Ok? ==> r.value == Owned(rows, caller.phone)
  {
    var selected := Owned(rows, caller.phone);
    if |selected| < 1 then Err(StatusOk, NoTransactionsDetail)
    else assert selected[0] in selected; Ok(selected)
  }

  /** `session.get(Transaction, id)`: the position of the row with key `id`. */
  function FindRow(rows: seq<Transaction>, id: Id): (r: Option<nat>)
    ensures r.Some? ==> r.value < |rows| && rows[r.value].id == id
    ensures r.None? ==> forall i :: 0 <= i < |rows| ==> rows[i].id != id
  {
    if rows == [] then None
    else if rows[0].id == id then Some(0)
    else match FindRow(rows[1..], id)
      case None => None
      case Some(k) => Some(k + 1)
  }

  /** A live (not soft-deleted) row with key `id` sent from `phone`. */
  ghost predicate LiveRowFrom(rows: seq<Transaction>, id: Id, phone: string) {
    exists i :: 0 <= i < |rows| && rows[i].id == id && !rows[i].deletedStatus && rows[i].senderPhone == phone
  }

  /** A live row with key `id`, whoever sent it. */
  ghost predicate LiveRow(rows: seq<Transaction>, id: Id) {
    exists i :: 0 <= i < |rows| && rows[i].id == id && !rows[i].deletedStatus
  }

  /** The outcome of delete_transaction: 404 for a missing or already deleted
      row, whatever its owner; then 403 for a row the caller did not send. */
  function DeleteVerdict(rows: seq<Transaction>, id: Id, callerPhone: string): (r: Response<()>)
    requires UniqueIds(rows)
    ensures r == Err(StatusNotFound, TransactionNotFoundDetail) <==> !LiveRow(rows, id)
    ensures r == Err(StatusForbidden, ForbiddenDetail) <==> LiveRow(rows, id) && !LiveRowFrom(rows, id, callerPhone)
    ensures r.Ok? <==> LiveRowFrom(rows, id, callerPhone)
  {
    match FindRow(rows, id)
    case None => Err(StatusNotFound, TransactionNotFoundDetail)
    case Some(i) =>
      if rows[i].deletedStatus then Err(StatusNotFound, TransactionNotFoundDetail)
      else if rows[i].senderPhone != callerPhone then Err(StatusForbidden, ForbiddenDetail)
      else Ok(())
  }

  /** Row `i` with its deleted flag set. */
  function SoftDeleted(rows: seq<Transaction>, i: nat): seq<Transaction>
    requires i < |rows|
  {
    rows[i := rows[i].(deletedStatus := true)]
  }

  /** A created row is listed for its sender after every earlier row. */
  lemma CreateThenList(rows: seq<Transaction>, t: Transaction, phone: string)
    ensures Owned(rows + [t], phone) == Owned(rows, phone) + (if Listed(t, phone) then [t] else [])
  {
    OwnedAppend(rows, [t], phone);
    assert [t][1..] == [];
  }

  /** The listing of a table is the listings of its parts around row `i`. */
  lemma OwnedAround(rows: seq<Transaction>, i: nat, phone: string)
    requires i < |rows|
    ensures Owned(rows, phone) == Owned(rows[..i], phone) + Owned([rows[i]], phone) + Owned(rows[i + 1..], phone)
  {
    assert rows == rows[..i] + [rows[i]] + rows[i + 1..];
    OwnedAppend(rows[..i] + [rows[i]], rows[i + 1..], phone);
    OwnedAppend(rows[..i], [rows[i]], phone);
  }

  /** A soft-deleted row is never listed. */
  lemma OwnedDeleted(t: Transaction, phone: string)
    requires t.deletedStatus
    ensures Owned([t], phone) == []
  {
    assert [t][1..] == [];
  }

  /** Soft deletion leaves every other row in place. */
  lemma SoftDeletedAround(rows: seq<Transaction>, i: nat)
    requires i < |rows|
    ensures SoftDeleted(rows, i)[..i] == rows[..i]
    ensures SoftDeleted(rows, i)[i + 1..] == rows[i + 1..]
    ensures SoftDeleted(rows, i)[i].deletedStatus
  {
  }

  /** Soft-deleting row `i` removes it, and only it, from every listing. */
  lemma DeleteThenList(rows: seq<Transaction>, i: nat, phone: string)
    requires i < |rows|
    ensures Owned(SoftDeleted(rows, i), phone) == Owned(rows[..i], phone) + Owned(rows[i + 1..], phone)
  {
    var after := SoftDeleted(rows, i);
    SoftDeletedAround(rows, i);
    OwnedDeleted(after[i], phone);
    OwnedAround(after, i, phone);
  }

  /** Soft delete keeps the keys, so a second delete of the same id is 404. */
  lemma SecondDeleteNotFound(rows: seq<Transaction>, i: nat, callerPhone: string)
    requires UniqueIds(rows) && i < |rows|
    ensures UniqueIds(SoftDeleted(rows, i))
    ensures DeleteVerdict(SoftDeleted(rows, i), rows[i].id, callerPhone) == Err(StatusNotFound, TransactionNotFoundDetail)
  {
  }

  /** The transaction table, rows in the order they were inserted. */
  class TransactionTable {
    var rows: seq<Transaction>

    ghost predicate Valid()
      reads this
    {
      UniqueIds(rows)
    }

    constructor ()
      ensures Valid() && rows == []
    {
      rows := [];
    }

    /** create_transaction: the first broken rule is reported and nothing is
        stored; otherwise the request is stored as given, including the
        body's sender phone, which is not compared with the caller. */
    method Create(req: TransactionRequest, id: Id, now: int) returns (r: Response<Transaction>)
      requires Valid()
      requires forall i :: 0 <= i < |rows| ==> rows[i].id != id
      modifies this
      ensures Valid()
      ensures r.Err? <==> Violations(req) != []
      ensures r.Err? ==> r == Err(StatusBadRequest, Violations(req)[0]) && rows == old(rows)
      ensures r.Ok? ==> r.value == NewTransaction(req, id, now) && rows == old(rows) + [r.value]
    {
      if req.amount <= 0 {
        return Err(StatusBadRequest, AmountDetail);
      }
      if |req.receiverPhone| != PhoneLength {
        return Err(StatusBadRequest, ReceiverDetail);
      }
      if |req.product| <= 2 {
        return Err(StatusBadRequest, ProductDetail);
      }
      var t := NewTransaction(req, id, now);
      rows := rows + [t];
      r := Ok(t);
    }

    /** delete_transaction: on success only the found row's flag changes. */
    method SoftDelete(id: Id, caller: User) returns (r: Response<()>)
      requires Valid()
      modifies this
      ensures Valid()
      ensures r == DeleteVerdict(old(rows), id, caller.phone)
      ensures r.Err? ==> rows == old(rows)
      ensures r.Ok? ==> exists i :: 0 <= i < |old(rows)| && old(rows)[i].id == id && rows == SoftDeleted(old(rows), i)
    {
      var found := FindRow(rows, id);
      if found.None? || rows[found.value].deletedStatus {
        return Err(StatusNotFound, TransactionNotFoundDetail);
      }
      var i := found.value;
      if rows[i].senderPhone != caller.phone {
        return Err(StatusForbidden, ForbiddenDetail);
      }
      SecondDeleteNotFound(rows, i, caller.phone);
      rows := SoftDeleted(rows, i);
      r := Ok(());
    }
  }
}
