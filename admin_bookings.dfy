/**
 * The administrator's bookings page (src/pages/admin/AdminBookings.tsx): the
 * list of bookings newest first, the status counters, the status badge, the
 * masked card number, payment approval or rejection, and deletion.
 *
 * The remote `bookings` table is the field `table`; the list the page shows is
 * `bookings`, a copy taken by the last successful fetch. Remote calls are
 * parameters giving their outcome.
 */
module AdminBookings {
  import opened Common
  import Ordering
  import Rows

  /** The `Booking` interface of the page (the columns it reads). */
  datatype Booking = Booking(
    id: string,
    name: string, email: string, phone: string, passport: string,
    service_type: string, destination: string, start_date: string,
    end_date: Option<string>, notes: Option<string>,
    payment_method: string,
    payment_status: string,
    payment_proof_url: Option<string>,
    card_last_four: Option<string>,
    created_at: int)

  const PendingConfirmation := "pending_confirmation"
  const Paid := "paid"
  const Rejected := "rejected"
  const KnownStatuses: set<string> := {PendingConfirmation, Paid, Rejected}

  // ---------------------------------------------------------------------------
  // Display helpers

  datatype Tone = Yellow | Green | Red | Plain

  /** A status badge: its text and its colour. */
  datatype Badge = Badge(text: string, tone: Tone)

  /** `getStatusBadge`: the three known statuses get a coloured label, any other status is shown raw. */
  function StatusBadge(status: string): (r: Badge)
    ensures r.tone == Plain <==> status !in KnownStatuses
    ensures r.tone == Plain ==> r.text == status
    ensures status == PendingConfirmation ==> r == Badge("Pending", Yellow)
    ensures status == Paid ==> r == Badge("Paid", Green)
    ensures status == Rejected ==> r == Badge("Rejected", Red)
  {
    if status == PendingConfirmation then Badge("Pending", Yellow)
    else if status == Paid then Badge("Paid", Green)
    else if status == Rejected then Badge("Rejected", Red)
    else Badge(status, Plain)
  }

  /** Two bookings with different statuses never show the same badge. */
  lemma BadgeDeterminesStatus(a: string, b: string)
    ensures StatusBadge(a) == StatusBadge(b) <==> a == b
  {
  }

  datatype MethodIcon = CardIcon | PhoneIcon

  /** `getPaymentMethodIcon`: the card icon for "card", the phone icon for anything else. */
  function PaymentMethodIcon(paymentMethod: string): (r: MethodIcon)
    ensures r == CardIcon <==> paymentMethod == "card"
  {
    if paymentMethod == "card" then CardIcon else PhoneIcon
  }

  /** `****{card_last_four}`, shown only when `card_last_four` is truthy. */
  function CardMask(b: Booking): (r: Option<string>)
    ensures r.Some? <==> Truthy(b.card_last_four)
    ensures r.Some? ==> |r.value| == 4 + |b.card_last_four.value| && r.value[..4] == "****"
                        && r.value[4..] == b.card_last_four.value
  {
    if Truthy(b.card_last_four) then Some("****" + b.card_last_four.value) else None
  }

  /** The proof button appears only for a booking with a truthy proof URL. */
  predicate ProofViewOffered(b: Booking)
  {
    Truthy(b.payment_proof_url)
  }

  /** The approve and reject buttons appear only for a booking awaiting confirmation. */
  predicate ActionsOffered(b: Booking)
  {
    b.payment_status == PendingConfirmation
  }

  // ---------------------------------------------------------------------------
  // Counters

  /** `bookings.filter(b => b.payment_status === status).length` */
  function CountStatus(rows: seq<Booking>, status: string): (r: nat)
    ensures r <= |rows|
    ensures r == 0 <==> forall b :: b in rows ==> b.payment_status != status
  {
    if rows == [] then 0
    else (if rows[0].payment_status == status then 1 else 0) + CountStatus(rows[1..], status)
  }

  /** Every booking has one of the three statuses the counters track. */
  predicate AllKnown(rows: seq<Booking>)
  {
    forall b :: b in rows ==> b.payment_status in KnownStatuses
  }

  function KnownCount(rows: seq<Booking>): nat
  {
    CountStatus(rows, PendingConfirmation) + CountStatus(rows, Paid) + CountStatus(rows, Rejected)
  }

  /**
   * The Pending, Paid and Rejected counters never add up to more than Total,
   * and add up to exactly Total if and only if every booking has one of the
   * three known statuses.
   */
  lemma {:induction false} CountersCoverTotal(rows: seq<Booking>)
    ensures KnownCount(rows) <= |rows|
    ensures KnownCount(rows) == |rows| <==> AllKnown(rows)
  {
    if rows != [] {
      CountersCoverTotal(rows[1..]);
      CountCons(rows, PendingConfirmation);
      CountCons(rows, Paid);
      CountCons(rows, Rejected);
      HeadCounted(rows[0].payment_status);
      AllKnownCons(rows);
    }
  }

  /** A booking adds one to exactly one of the three counters when its status is known, else to none. */
  lemma HeadCounted(st: string)
    ensures (if st == PendingConfirmation then 1 else 0) + (if st == Paid then 1 else 0)
            + (if st == Rejected then 1 else 0) == if st in KnownStatuses then 1 else 0
  {
    assert |PendingConfirmation| == 20 && |Paid| == 4 && |Rejected| == 8;
  }

  lemma AllKnownCons(rows: seq<Booking>)
    requires rows != []
    ensures AllKnown(rows) <==> rows[0].payment_status in KnownStatuses && AllKnown(rows[1..])
  {
    assert forall b :: b in rows <==> b == rows[0] || b in rows[1..] by {
      assert rows == [rows[0]] + rows[1..];
    }
  }

  // ---------------------------------------------------------------------------
  // Table operations

  function BookingId(b: Booking): string
  {
    b.id
  }

  function StatusTo(status: string): Booking -> Booking
  {
    (b: Booking) => b.(payment_status := status)
  }

  /** `.update({ payment_status: status }).eq('id', id)` */
  function SetStatus(rows: seq<Booking>, id: string, status: string): (r: seq<Booking>)
    ensures |r| == |rows|
    ensures forall k :: 0 <= k < |r| ==>
              && (rows[k].id != id ==> r[k] == rows[k])
              && (rows[k].id == id ==> r[k] == rows[k].(payment_status := status))
  {
    Rows.Update(rows, BookingId, id, StatusTo(status))
  }

  /**
   * Approving or rejecting a row `b` of the table changes `b`, at its
   * position, and no other row.
   */
  lemma SetStatusOnlyRow(rows: seq<Booking>, b: Booking, status: string)
    requires Rows.UniqueKeys(rows, BookingId) && b in rows
    ensures forall j :: 0 <= j < |rows| ==>
              SetStatus(rows, b.id, status)[j] == if rows[j] == b then b.(payment_status := status) else rows[j]
  {
    Rows.UpdateOnlyRow(rows, BookingId, b, StatusTo(status));
  }

  /**
   * Writing a status to the one row with id `id` moves exactly one booking from
   * its old status's counter to the new status's counter: for every status
   * `t`, the count changes by +1 for the new status and -1 for the old one.
   */
  lemma {:induction false} SetStatusMovesOne(rows: seq<Booking>, k: nat, status: string, t: string)
    requires Rows.UniqueKeys(rows, BookingId) && k < |rows|
    ensures CountStatus(SetStatus(rows, rows[k].id, status), t)
            == CountStatus(rows, t) - (if rows[k].payment_status == t then 1 else 0) + (if status == t then 1 else 0)
  {
    var id := rows[k].id;
    var r := SetStatus(rows, id, status);
    var tail := SetStatus(rows[1..], id, status);
    SetStatusTail(rows, id, status);
    CountCons(r, t);
    Rows.TailUnique(rows, BookingId);
    if k == 0 {
      SetStatusAbsent(rows[1..], id, status);
    } else {
      assert rows[1..][k - 1] == rows[k];
      assert rows[0].id != id;
      SetStatusMovesOne(rows[1..], k - 1, status, t);
    }
    CountCons(rows, t);
  }

  lemma SetStatusTail(rows: seq<Booking>, id: string, status: string)
    requires rows != []
    ensures SetStatus(rows, id, status)[1..] == SetStatus(rows[1..], id, status)
  {
    var u := StatusTo(status);
    assert Rows.Update(rows, BookingId, id, u)
           == [if rows[0].id == id then u(rows[0]) else rows[0]] + Rows.Update(rows[1..], BookingId, id, u);
  }

  lemma SetStatusAbsent(rows: seq<Booking>, id: string, status: string)
    requires forall b :: b in rows ==> b.id != id
    ensures SetStatus(rows, id, status) == rows
  {
    var r := SetStatus(rows, id, status);
    forall j | 0 <= j < |rows| ensures r[j] == rows[j] {
      assert rows[j] in rows;
    }
  }

  lemma CountCons(rows: seq<Booking>, t: string)
    requires rows != []
    ensures CountStatus(rows, t) == (if rows[0].payment_status == t then 1 else 0) + CountStatus(rows[1..], t)
  {
  }

  /** `.delete().eq('id', id)` */
  function RemoveId(rows: seq<Booking>, id: string): (r: seq<Booking>)
    ensures forall b :: b in r <==> b in rows && b.id != id
  {
    Rows.Remove(rows, BookingId, id)
  }

  function NegCreatedAt(b: Booking): int
  {
    -b.created_at
  }

  /** `.select('*').order('created_at', { ascending: false })` */
  function NewestFirst(table: seq<Booking>): (r: seq<Booking>)
    ensures multiset(r) == multiset(table)
  {
    Ordering.SortBy(table, NegCreatedAt)
  }

  /** The fetched list holds every booking of the table exactly once, newest first. */
  lemma NewestFirstOrder(table: seq<Booking>)
    ensures var r := NewestFirst(table);
            && (forall i, j :: 0 <= i < j < |r| ==> r[i].created_at >= r[j].created_at)
            && (forall b :: b in r <==> b in table)
  {
    Ordering.SortBySorted(table, NegCreatedAt);
    var r := NewestFirst(table);
    forall i, j | 0 <= i < j < |r| ensures r[i].created_at >= r[j].created_at {
      assert NegCreatedAt(r[i]) <= NegCreatedAt(r[j]);
    }
    forall b ensures b in r <==> b in table {
      Ordering.SortByMembers(table, NegCreatedAt, b);
    }
  }

  datatype Decision = Approve | Reject

  function DecisionStatus(d: Decision): (r: string)
    ensures r in KnownStatuses && r != PendingConfirmation
    ensures d.Approve? <==> r == Paid
    ensures d.Reject? <==> r == Rejected
  {
    match d
    case Approve => Paid
    case Reject => Rejected
  }

  // ---------------------------------------------------------------------------
  // The page

  /** Which of the page's dialogs is open: details, payment proof or delete confirmation. */
  datatype Dialog = Closed | DetailsOpen | ProofOpen | DeleteOpen

  class BookingsPage {
    /** The remote `bookings` table. */
    var table: seq<Booking>
    /** The list on screen (`bookings` state). */
    var bookings: seq<Booking>
    /** `selectedBooking` */
    var selected: Option<Booking>
    /** `detailsDialogOpen`, `proofDialogOpen` and `deleteDialogOpen`; at most one is open. */
    var dialog: Dialog

    ghost predicate Valid()
      reads this
    {
      Rows.UniqueKeys(table, BookingId)
    }

    /** The list on screen is the table as a fresh fetch would return it. */
    ghost predicate InSync()
      reads this
    {
      bookings == NewestFirst(table)
    }

    /** Mount: one fetch of the bookings. */
    constructor (remote: seq<Booking>, fetch: Outcome)
      requires Rows.UniqueKeys(remote, BookingId)
      ensures Valid()
      ensures table == remote && selected.None? && dialog == Closed
      ensures bookings == if fetch.Ok? then NewestFirst(remote) else []
    {
      table := remote;
      selected := None;
      dialog := Closed;
      bookings := if fetch.Ok? then NewestFirst(remote) else [];
    }

    /** `fetchBookings`: a successful fetch replaces the list; a failed one keeps what is shown. */
    method FetchBookings(fetch: Outcome)
      requires Valid()
      modifies this`bookings
      ensures Valid()
      ensures bookings == if fetch.Ok? then NewestFirst(table) else old(bookings)
    {
      if fetch.Ok? {
        bookings := NewestFirst(table);
      }
    }

    /**
     * `updatePaymentStatus`: a successful update changes the status of the rows
     * with that id and nothing else, then refetches; a failed update changes nothing.
     */
    method UpdatePaymentStatus(id: string, d: Decision, write: Outcome, refetch: Outcome)
      requires Valid()
      modifies this`table, this`bookings
      ensures Valid()
      ensures table == if write.Ok? then SetStatus(old(table), id, DecisionStatus(d)) else old(table)
      ensures bookings == if write.Ok? && refetch.Ok? then NewestFirst(table) else old(bookings)
    {
      if write.Error? {
        return;
      }
      table := SetStatus(table, id, DecisionStatus(d));
      FetchBookings(refetch);
    }

    /**
     * An approve or reject button of the table row `k` (rendered only for a
     * pending booking). When the list on screen was in sync with the table, the
     * row written is that booking: it goes from pending to paid or rejected and
     * every other row is unchanged.
     */
    method Moderate(k: nat, d: Decision, write: Outcome, refetch: Outcome)
      requires Valid() && k < |bookings| && ActionsOffered(bookings[k])
      modifies this`table, this`bookings
      ensures Valid()
      ensures table == if write.Ok? then SetStatus(old(table), old(bookings)[k].id, DecisionStatus(d)) else old(table)
      ensures old(InSync()) && write.Ok? ==>
                forall j :: 0 <= j < |table| ==>
                  if old(table)[j] == old(bookings)[k]
                  then old(table)[j].payment_status == PendingConfirmation
                       && table[j] == old(table)[j].(payment_status := DecisionStatus(d))
                  else table[j] == old(table)[j]
    {
      var b := bookings[k];
      if InSync() {
        NewestFirstOrder(table);
        SetStatusOnlyRow(table, b, DecisionStatus(d));
      }
      UpdatePaymentStatus(b.id, d, write, refetch);
    }

    /**
     * The eye, proof and delete buttons of row `k` select that booking and open
     * the details, proof or delete dialog; the proof button is rendered only for
     * a booking with a proof URL.
     */
    method Select(k: nat, to: Dialog)
      requires Valid() && k < |bookings| && to != Closed
      requires to == ProofOpen ==> ProofViewOffered(bookings[k])
      modifies this`selected, this`dialog
      ensures Valid()
      ensures selected == Some(bookings[k]) && dialog == to
      ensures dialog == ProofOpen ==> ProofViewOffered(selected.value)
    {
      selected := Some(bookings[k]);
      dialog := to;
    }

    /** `onOpenChange(false)`: closing a dialog keeps the selection. */
    method CloseDialog()
      modifies this`dialog
      ensures dialog == Closed
    {
      dialog := Closed;
    }

    /**
     * Approve or reject in the details or proof dialog: the dialog shows the
     * selected booking, its buttons are rendered only while it is pending, and
     * the proof dialog renders its content only when the booking has a proof
     * URL. Either button closes its dialog whatever the outcome of the write.
     */
    method ModerateSelected(d: Decision, write: Outcome, refetch: Outcome)
      requires Valid() && selected.Some? && ActionsOffered(selected.value)
      requires dialog == DetailsOpen || (dialog == ProofOpen && ProofViewOffered(selected.value))
      modifies this`table, this`bookings, this`dialog
      ensures Valid()
      ensures table == if write.Ok? then SetStatus(old(table), selected.value.id, DecisionStatus(d)) else old(table)
      ensures bookings == if write.Ok? && refetch.Ok? then NewestFirst(table) else old(bookings)
      ensures dialog == Closed
    {
      UpdatePaymentStatus(selected.value.id, d, write, refetch);
      dialog := Closed;
    }

    /**
     * The Delete button of the confirmation dialog, which runs `handleDelete`.
     * The button is an alert-dialog action, so every click closes the dialog.
     * Without a selection nothing else happens; a successful delete removes the
     * rows with the selected id, clears the selection and refetches; a failed
     * delete keeps the table, the list and the selection.
     */
    method HandleDelete(write: Outcome, refetch: Outcome)
      requires Valid() && dialog == DeleteOpen
      modifies this`table, this`bookings, this`selected, this`dialog
      ensures Valid()
      ensures dialog == Closed
      ensures old(selected).None? || write.Error? ==>
                && table == old(table) && bookings == old(bookings)
                && selected == old(selected)
      ensures old(selected).Some? && write.Ok? ==>
                && table == RemoveId(old(table), old(selected).value.id)
                && selected.None?
                && bookings == (if refetch.Ok? then NewestFirst(table) else old(bookings))
      ensures old(selected).Some? && write.Ok? && old(selected).value in old(table) ==>
                |table| == |old(table)| - 1
    {
      dialog := Closed;
      if selected.None? || write.Error? {
        return;
      }
      DeleteSelected(refetch);
    }

    /** The successful half of `handleDelete`: the delete succeeded for the selected booking. */
    method DeleteSelected(refetch: Outcome)
      requires Valid() && selected.Some?
      modifies this`table, this`bookings, this`selected
      ensures Valid()
      ensures table == RemoveId(old(table), old(selected).value.id) && selected.None?
      ensures bookings == (if refetch.Ok? then NewestFirst(table) else old(bookings))
      ensures old(selected).value in old(table) ==> |table| == |old(table)| - 1
    {
      ghost var id := selected.value.id;
      Rows.RemoveKeepsUnique(table, BookingId, id);
      if selected.value in table {
        var k :| 0 <= k < |table| && table[k] == selected.value;
        Rows.RemoveRemovesOne(table, BookingId, k);
      }
      table := RemoveId(table, selected.value.id);
      selected := None;
      FetchBookings(refetch);
    }
  }
}
