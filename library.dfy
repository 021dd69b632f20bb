/**
 * The three state-changing view actions as methods of a Library object whose
 * fields are the tables they update in place: each book's available copies,
 * the members, the loan table, and the queue of loan notifications.
 */
module LibraryViews {
  import opened LoanState
  import opened LoanProperties

  /**
   * The active-loan query of return_book: scan the loan table for rows of
   * (book, member) that are not returned and report none, the one, or several.
   */
  method FindActiveLoan(loans: seq<Loan>, book: BookId, member: MemberId) returns (q: Query)
    ensures q == GetActiveLoan(loans, book, member)
  {
    var hits: seq<LoanId> := [];
    var i := 0;
    while i < |loans|
      invariant 0 <= i <= |loans|
      invariant hits == ActiveIndices(loans[..i], book, member)
    {
      assert loans[..i + 1][..i] == loans[..i];
      if IsActiveLoanOf(loans[i], book, member) {
        hits := hits + [i];
      }
      i := i + 1;
    }
    assert loans[..i] == loans;
    if |hits| == 0 {
      q := NoneFound;
    } else if |hits| == 1 {
      q := One(hits[0]);
    } else {
      q := Many;
    }
  }

  class Library {
    var copies: map<BookId, int>
    var members: set<MemberId>
    var loans: seq<Loan>
    /** The loan ids handed to the notification task queue, oldest first. */
    var notified: seq<LoanId>

    /** The persistent tables as one value. */
    function Snapshot(): State
      reads this
    {
      State(copies, members, loans)
    }

    ghost predicate Valid()
      reads this
    {
      NonNegative(Snapshot()) &&
      forall k :: 0 <= k < |notified| ==> notified[k] < |loans|
    }

    constructor (initial: State)
      requires NonNegative(initial)
      ensures Valid()
      ensures Snapshot() == initial && notified == []
    {
      copies := initial.copies;
      members := initial.members;
      loans := initial.loans;
      notified := [];
    }

    /**
     * BookViewSet.loan. On success the new loan's id is queued for a
     * notification; every other outcome leaves everything as it was.
     */
    method LendBook(book: BookId, member: MemberId, dueDate: Day) returns (outcome: Outcome)
      requires Valid()
      modifies this
      ensures Valid()
      ensures (outcome, Snapshot()) == LoanSpec(old(Snapshot()), book, member, dueDate)
      ensures Conserved(old(Snapshot()), Snapshot())
      ensures notified == if outcome == Ok then old(notified) + [|old(loans)|] else old(notified)
    {
      LoanConserves(Snapshot(), book, member, dueDate);
      if book !in copies {
        return NotFound;
      }
      if copies[book] < 1 {
        return NoCopies;
      }
      if member !in members {
        return NoMember;
      }
      var id := |loans|;
      loans := loans + [Loan(book, member, false, None, dueDate)];
      copies := copies[book := copies[book] - 1];
      notified := notified + [id];
      outcome := Ok;
    }

    /** BookViewSet.return_book: close the one active loan and put the copy back. */
    method ReturnBook(book: BookId, member: MemberId, today: Day) returns (outcome: Outcome)
      requires Valid()
      modifies this
      ensures Valid()
      ensures (outcome, Snapshot()) == ReturnSpec(old(Snapshot()), book, member, today)
      ensures Conserved(old(Snapshot()), Snapshot())
      ensures notified == old(notified)
    {
      ReturnConserves(Snapshot(), book, member, today);
      if book !in copies {
        return NotFound;
      }
      var q := FindActiveLoan(loans, book, member);
      match q
      case NoneFound =>
        outcome := NoActiveLoan;
      case Many =>
        outcome := MultipleActiveLoans;
      case One(i) =>
        ghost var before := loans;
        loans := loans[i := loans[i].(isReturned := true)];
        loans := loans[i := loans[i].(returnDate := Some(today))];
        assert loans == before[i := Closed(before[i], today)];
        copies := copies[book := copies[book] + 1];
        outcome := Ok;
    }

    /**
     * LoanViewSet.extend_due_date with the stored due date moved by the
     * validated number of days (None: the serializer rejected the body).
     */
    method ExtendDueDate(id: int, additionalDays: Option<int>) returns (outcome: Outcome)
      requires Valid()
      modifies this
      ensures Valid()
      ensures (outcome, Snapshot()) == ExtendSpec(old(Snapshot()), id, additionalDays)
      ensures Conserved(old(Snapshot()), Snapshot())
      ensures notified == old(notified)
    {
      ExtendConserves(Snapshot(), id, additionalDays);
      if !(0 <= id < |loans|) {
        return NotFound;
      }
      if additionalDays.None? {
        return InvalidInput;
      }
      var l := loans[id];
      loans := loans[id := l.(dueDate := l.dueDate + additionalDays.value)];
      outcome := Ok;
    }
  }
}
