/**
 * The library's persistent state as a value, and the three loan-lifecycle
 * actions of the book and loan view sets as functions on that value.
 * Dates are whole day numbers; "today" and a new loan's due date are inputs.
 */
module LoanState {

  type BookId = int
  type MemberId = int
  /** A loan's primary key: its position in the table of loans. */
  type LoanId = nat
  /** A calendar date as a day number, so that adding a timedelta of d days is + d. */
  type Day = int

  datatype Option<+T> = None | Some(value: T)

  /** One row of the loan table. */
  datatype Loan = Loan(
    book: BookId,
    member: MemberId,
    isReturned: bool,
    returnDate: Option<Day>,
    dueDate: Day)

  /**
   * Everything the three actions read or write: each book's available
   * copies, the existing members, and the loan table.
   */
  datatype State = State(
    copies: map<BookId, int>,
    members: set<MemberId>,
    loans: seq<Loan>)

  /** What a request answers. */
  datatype Outcome =
    | Ok                   // 201 "Book loaned successfully." / 200 "Book returned successfully." / 200 "Loan date adjusted"
    | NotFound             // get_object() found no book or loan with that key (404)
    | NoCopies             // 400 "No available copies."
    | NoMember             // 400 "Member does not exist."
    | NoActiveLoan         // 400 "Active loan does not exist."
    | MultipleActiveLoans  // Loan.objects.get found several rows: an uncaught exception
    | InvalidInput         // the extension serializer rejected the request body (400)
    | SaveRejected         // save() refused its keyword arguments: an uncaught exception

  /** The filter of the active-loan query: this book, this member, not returned. */
  predicate IsActiveLoanOf(l: Loan, book: BookId, member: MemberId)
  {
    l.book == book && l.member == member && !l.isReturned
  }

  /** 1 when the loan is an active loan of the book, else 0. */
  function ActiveOn(l: Loan, book: BookId): nat
  {
    if l.book == book && !l.isReturned then 1 else 0
  }

  /** The number of active loans of a book. */
  function ActiveCount(loans: seq<Loan>, book: BookId): nat
  {
    if loans == [] then 0
    else ActiveCount(loans[..|loans| - 1], book) + ActiveOn(loans[|loans| - 1], book)
  }

  /** The positions, in increasing order, of the active loans of (book, member). */
  function ActiveIndices(loans: seq<Loan>, book: BookId, member: MemberId): (ix: seq<LoanId>)
    ensures forall k :: 0 <= k < |ix| ==> ix[k] < |loans| && IsActiveLoanOf(loans[ix[k]], book, member)
    ensures forall j :: 0 <= j < |loans| && IsActiveLoanOf(loans[j], book, member) ==> j in ix
    ensures forall k1, k2 :: 0 <= k1 < k2 < |ix| ==> ix[k1] < ix[k2]
  {
    if loans == [] then []
    else
      var n := |loans| - 1;
      ActiveIndices(loans[..n], book, member) + (if IsActiveLoanOf(loans[n], book, member) then [n] else [])
  }

  /** The three results of a get() query. */
  datatype Query = NoneFound | One(index: LoanId) | Many

  /**
   * Loan.objects.get(book=book, member__id=member, is_returned=False):
   * the single matching row, or DoesNotExist, or MultipleObjectsReturned.
   */
  function GetActiveLoan(loans: seq<Loan>, book: BookId, member: MemberId): (q: Query)
    ensures q.NoneFound? <==> forall j :: 0 <= j < |loans| ==> !IsActiveLoanOf(loans[j], book, member)
    ensures q.One? ==>
      q.index < |loans| && IsActiveLoanOf(loans[q.index], book, member) &&
      forall j :: 0 <= j < |loans| && j != q.index ==> !IsActiveLoanOf(loans[j], book, member)
    ensures q.Many? <==>
      exists i, j :: 0 <= i < j < |loans| && IsActiveLoanOf(loans[i], book, member) && IsActiveLoanOf(loans[j], book, member)
  {
    var ix := ActiveIndices(loans, book, member);
    if |ix| == 0 then NoneFound
    else if |ix| == 1 then One(ix[0])
    else
      assert 0 <= ix[0] < ix[1] < |loans|;
      assert IsActiveLoanOf(loans[ix[0]], book, member) && IsActiveLoanOf(loans[ix[1]], book, member);
      Many
  }

  /**
   * BookViewSet.loan: refuse when the book has no copy left (checked first),
   * then when the member does not exist; otherwise insert an active loan and
   * take one copy.
   */
  function LoanSpec(s: State, book: BookId, member: MemberId, dueDate: Day): (r: (Outcome, State))
    ensures r.0 in {Ok, NotFound, NoCopies, NoMember}
    ensures r.0 == NotFound <==> book !in s.copies
    ensures r.0 == NoCopies <==> book in s.copies && s.copies[book] < 1
    ensures r.0 == NoMember <==> book in s.copies && s.copies[book] >= 1 && member !in s.members
    ensures r.0 != Ok ==> r.1 == s
    ensures r.0 == Ok ==>
      r.1.members == s.members &&
      r.1.copies.Keys == s.copies.Keys &&
      r.1.copies[book] == s.copies[book] - 1 &&
      (forall b :: b in s.copies && b != book ==> r.1.copies[b] == s.copies[b]) &&
      |r.1.loans| == |s.loans| + 1 &&
      r.1.loans[..|s.loans|] == s.loans &&
      r.1.loans[|s.loans|] == Loan(book, member, false, None, dueDate)
  {
    if book !in s.copies then (NotFound, s)
    else if s.copies[book] < 1 then (NoCopies, s)
    else if member !in s.members then (NoMember, s)
    else (Ok, s.(copies := s.copies[book := s.copies[book] - 1],
                 loans := s.loans + [Loan(book, member, false, None, dueDate)]))
  }

  /** The loan row as return_book leaves it: returned, with today's date. */
  function Closed(l: Loan, today: Day): Loan
  {
    l.(isReturned := true, returnDate := Some(today))
  }

  /**
   * BookViewSet.return_book: find the one active loan of (book, member),
   * close it with today's date and give the copy back.
   */
  function ReturnSpec(s: State, book: BookId, member: MemberId, today: Day): (r: (Outcome, State))
    ensures r.0 in {Ok, NotFound, NoActiveLoan, MultipleActiveLoans}
    ensures r.0 == NotFound <==> book !in s.copies
    ensures r.0 == NoActiveLoan <==>
      book in s.copies && forall j :: 0 <= j < |s.loans| ==> !IsActiveLoanOf(s.loans[j], book, member)
    ensures r.0 == MultipleActiveLoans <==>
      book in s.copies &&
      exists i, j :: 0 <= i < j < |s.loans| && IsActiveLoanOf(s.loans[i], book, member) && IsActiveLoanOf(s.loans[j], book, member)
    ensures r.0 != Ok ==> r.1 == s
    ensures r.0 == Ok ==>
      r.1.members == s.members &&
      r.1.copies.Keys == s.copies.Keys &&
      r.1.copies[book] == s.copies[book] + 1 &&
      (forall b :: b in s.copies && b != book ==> r.1.copies[b] == s.copies[b]) &&
      |r.1.loans| == |s.loans| &&
      forall j :: 0 <= j < |s.loans| ==>
        r.1.loans[j] == if IsActiveLoanOf(s.loans[j], book, member) then Closed(s.loans[j], today) else s.loans[j]
  {
    if book !in s.copies then (NotFound, s)
    else match GetActiveLoan(s.loans, book, member)
      case NoneFound => (NoActiveLoan, s)
      case Many => (MultipleActiveLoans, s)
      case One(i) =>
        (Ok, s.(loans := s.loans[i := Closed(s.loans[i], today)],
                copies := s.copies[book := s.copies[book] + 1]))
  }

  /**
   * LoanViewSet.extend_due_date as the view evidently intends it: move the
   * stored due date forward by the validated number of days (None stands for
   * a body the serializer rejects). The loan lookup comes first.
   */
  function ExtendSpec(s: State, id: int, additionalDays: Option<int>): (r: (Outcome, State))
    ensures r.0 in {Ok, NotFound, InvalidInput}
    ensures r.0 == NotFound <==> !(0 <= id < |s.loans|)
    ensures r.0 == InvalidInput <==> 0 <= id < |s.loans| && additionalDays.None?
    ensures r.0 != Ok ==> r.1 == s
    ensures r.0 == Ok ==>
      r.1.copies == s.copies && r.1.members == s.members &&
      |r.1.loans| == |s.loans| &&
      r.1.loans[id] == s.loans[id].(dueDate := s.loans[id].dueDate + additionalDays.value) &&
      forall j :: 0 <= j < |s.loans| && j != id ==> r.1.loans[j] == s.loans[j]
  {
    if !(0 <= id < |s.loans|) then (NotFound, s)
    else if additionalDays.None? then (InvalidInput, s)
    else
      var l := s.loans[id];
      (Ok, s.(loans := s.loans[id := l.(dueDate := l.dueDate + additionalDays.value)]))
  }

  /**
   * LoanViewSet.extend_due_date as written: save() is called with the keyword
   * updated_fields, which Django's Model.save does not accept, so every
   * request that gets past validation fails inside save() and nothing is stored.
   */
  function ExtendAsWritten(s: State, id: int, additionalDays: Option<int>): (r: (Outcome, State))
    ensures r.0 in {SaveRejected, NotFound, InvalidInput}
    ensures r.0 == NotFound <==> !(0 <= id < |s.loans|)
    ensures r.0 == InvalidInput <==> 0 <= id < |s.loans| && additionalDays.None?
    ensures r.1 == s
  {
    if !(0 <= id < |s.loans|) then (NotFound, s)
    else if additionalDays.None? then (InvalidInput, s)
    else (SaveRejected, s)
  }
}
