/** The `mark_as_completed` bulk action of the ClientRequest admin: one
    `update(status='Completed')` over the selected rows, then a message with
    the number of rows the update matched. */
module Admin {
  import opened Db
  import Decimal

  /** The status the action writes. */
  const CompletedStatus: string := "Completed"

  /** The request table after setting the status of the selected rows. */
  function Completed(requests: map<nat, ClientRequest>, selection: set<nat>): map<nat, ClientRequest>
  {
    map k | k in requests :: if k in selection then requests[k].(status := CompletedStatus) else requests[k]
  }

  /** The message shown for a count. */
  function Message(count: nat): string
  {
    Decimal.NatToString(count) + " requests marked as completed."
  }

  /** `ClientRequestAdmin.mark_as_completed`: every selected request gets the
      status 'Completed'; the count is the number of selected rows. */
  method MarkAsCompleted(db: Store, selection: set<nat>) returns (count: nat, message: string)
    requires db.Valid()
    modifies db`requests
    ensures db.Valid()
    ensures db.requests == Completed(old(db.requests), selection)
    ensures count == |selection * old(db.requests).Keys|
    ensures message == Message(count)
  {
    var matched := selection * db.requests.Keys;
    db.requests := map k | k in db.requests :: if k in matched then db.requests[k].(status := CompletedStatus) else db.requests[k];
    count := |matched|;
    message := Decimal.NatToString(count) + " requests marked as completed.";
  }

  /** Every selected request reads 'Completed' afterwards; the table keeps the
      same rows; a selected row changes in its status only; every other row is
      unchanged. */
  lemma CompletedRows(requests: map<nat, ClientRequest>, selection: set<nat>)
    ensures Completed(requests, selection).Keys == requests.Keys
    ensures forall k :: k in requests && k in selection ==>
      && Completed(requests, selection)[k].status == CompletedStatus
      && Completed(requests, selection)[k].client == requests[k].client
      && Completed(requests, selection)[k].requestType == requests[k].requestType
      && Completed(requests, selection)[k].description == requests[k].description
    ensures forall k :: k in requests && k !in selection ==> Completed(requests, selection)[k] == requests[k]
  {
  }

  /** Applying the action twice to the same selection gives the same table as
      applying it once. */
  lemma CompletedIdempotent(requests: map<nat, ClientRequest>, selection: set<nat>)
    ensures Completed(Completed(requests, selection), selection) == Completed(requests, selection)
  {
  }

  /** The action leaves each request's foreign keys where they were. */
  lemma CompletedKeepsReferences(requests: map<nat, ClientRequest>, selection: set<nat>, clientCount: nat, requestTypes: map<nat, RequestType>)
    requires RequestsReferToClients(requests, clientCount, requestTypes)
    ensures RequestsReferToClients(Completed(requests, selection), clientCount, requestTypes)
  {
  }

  /** When every selected id is an existing request, the count is the size of
      the selection. */
  lemma CountIsSelectionSize(requests: map<nat, ClientRequest>, selection: set<nat>)
    requires selection <= requests.Keys
    ensures |selection * requests.Keys| == |selection|
  {
    assert selection * requests.Keys == selection;
  }

  /** The message determines the count it reports. */
  lemma MessageReportsCount(a: nat, b: nat)
    requires Message(a) == Message(b)
    ensures a == b
  {
    assert Message(a) == "" + Decimal.NatToString(a) + " requests marked as completed.";
    assert Message(b) == "" + Decimal.NatToString(b) + " requests marked as completed.";
    Decimal.MessageDeterminesCount("", a, b, " requests marked as completed.");
  }
}
