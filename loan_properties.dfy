/**
 * What the loan lifecycle keeps: no book's count of available copies goes
 * negative, each book's copies on the shelf plus its active loans stay the
 * same, a return undoes a loan when the member held no other active loan
 * of that book, and due-date extensions add up.
 */
module LoanProperties {
  import opened LoanState

  /** No book has a negative number of available copies. */
  ghost predicate NonNegative(s: State)
  {
    forall b :: b in s.copies ==> s.copies[b] >= 0
  }

  /** A book's copies: those on the shelf plus those out on active loans. */
  function Held(s: State, book: BookId): int
    requires book in s.copies
  {
    s.copies[book] + ActiveCount(s.loans, book)
  }

  /** The same books, each holding the same number of copies. */
  ghost predicate Conserved(s: State, t: State)
  {
    s.copies.Keys == t.copies.Keys &&
    forall b :: b in s.copies ==> b in t.copies && Held(t, b) == Held(s, b)
  }

  lemma {:induction false} ActiveCountUpdate(loans: seq<Loan>, i: int, l: Loan, book: BookId)
    requires 0 <= i < |loans|
    ensures ActiveCount(loans[i := l], book) + ActiveOn(loans[i], book) ==
            ActiveCount(loans, book) + ActiveOn(l, book)
  {
    var n := |loans| - 1;
    if i == n {
      assert loans[i := l][..n] == loans[..n];
    } else {
      assert loans[i := l][..n] == loans[..n][i := l];
      ActiveCountUpdate(loans[..n], i, l, book);
    }
  }

  /** A successful loan moves one copy from the shelf to a new active loan. */
  lemma LoanConserves(s: State, book: BookId, member: MemberId, dueDate: Day)
    ensures Conserved(s, LoanSpec(s, book, member, dueDate).1)
  {
  }

  /** A successful return moves one copy from a closed loan back to the shelf. */
  lemma ReturnConserves(s: State, book: BookId, member: MemberId, today: Day)
    ensures Conserved(s, ReturnSpec(s, book, member, today).1)
  {
    var r := ReturnSpec(s, book, member, today);
    if r.0 == Ok {
      var q := GetActiveLoan(s.loans, book, member);
      assert q.One?;
      var i := q.index;
      assert r.1.loans == s.loans[i := Closed(s.loans[i], today)];
      forall b | b in s.copies
        ensures Held(r.1, b) == Held(s, b)
      {
        ActiveCountUpdate(s.loans, i, Closed(s.loans[i], today), b);
      }
    }
  }

  /** Extending a due date leaves every loan's book and status as it was. */
  lemma ExtendConserves(s: State, id: int, additionalDays: Option<int>)
    ensures Conserved(s, ExtendSpec(s, id, additionalDays).1)
  {
    var r := ExtendSpec(s, id, additionalDays);
    if r.0 == Ok {
      var l := s.loans[id];
      assert r.1.loans == s.loans[id := l.(dueDate := l.dueDate + additionalDays.value)];
      forall b | b in s.copies
        ensures Held(r.1, b) == Held(s, b)
      {
        ActiveCountUpdate(s.loans, id, r.1.loans[id], b);
      }
    }
  }

  /** A request to one of the three actions, with the inputs the model takes. */
  datatype Request =
    | LoanRequest(book: BookId, member: MemberId, dueDate: Day)
    | ReturnRequest(book: BookId, member: MemberId, today: Day)
    | ExtendRequest(id: int, additionalDays: Option<int>)

  function Step(s: State, req: Request): (Outcome, State)
  {
    match req
    case LoanRequest(book, member, dueDate) => LoanSpec(s, book, member, dueDate)
    case ReturnRequest(book, member, today) => ReturnSpec(s, book, member, today)
    case ExtendRequest(id, days) => ExtendSpec(s, id, days)
  }

  /** The state after serving the requests one after another. */
  function Run(s: State, reqs: seq<Request>): State
    decreases |reqs|
  {
    if reqs == [] then s else Run(Step(s, reqs[0]).1, reqs[1..])
  }

  /** Every action, whatever its outcome, keeps the counts non-negative and conserved. */
  lemma StepPreserves(s: State, req: Request)
    ensures NonNegative(s) ==> NonNegative(Step(s, req).1)
    ensures Conserved(s, Step(s, req).1)
  {
    match req
    case LoanRequest(book, member, dueDate) => LoanConserves(s, book, member, dueDate);
    case ReturnRequest(book, member, today) => ReturnConserves(s, book, member, today);
    case ExtendRequest(id, days) => ExtendConserves(s, id, days);
  }

  /**
   * Over any sequence of requests, starting from non-negative counts, no
   * count goes negative, and every book holds as many copies as it started with.
   */
  lemma {:induction false} RunPreserves(s: State, reqs: seq<Request>)
    ensures NonNegative(s) ==> NonNegative(Run(s, reqs))
    ensures Conserved(s, Run(s, reqs))
    decreases |reqs|
  {
    if reqs != [] {
      var t := Step(s, reqs[0]).1;
      StepPreserves(s, reqs[0]);
      RunPreserves(t, reqs[1..]);
    }
  }

  /**
   * Returning right after a loan, when the member had no other active loan
   * of that book, succeeds, puts the copy back, and leaves the new loan closed.
   */
  lemma ReturnUndoesLoan(s: State, book: BookId, member: MemberId, dueDate: Day, today: Day)
    requires LoanSpec(s, book, member, dueDate).0 == Ok
    requires forall j :: 0 <= j < |s.loans| ==> !IsActiveLoanOf(s.loans[j], book, member)
    ensures ReturnSpec(LoanSpec(s, book, member, dueDate).1, book, member, today).0 == Ok
    ensures ReturnSpec(LoanSpec(s, book, member, dueDate).1, book, member, today).1 ==
            s.(loans := s.loans + [Loan(book, member, true, Some(today), dueDate)])
  {
  }

  /** Extending by a days and then by b days is extending once by a + b days. */
  lemma ExtendAdditive(s: State, id: int, a: int, b: int)
    ensures ExtendSpec(ExtendSpec(s, id, Some(a)).1, id, Some(b)) == ExtendSpec(s, id, Some(a + b))
  {
    if 0 <= id < |s.loans| {
      var l := s.loans[id];
      assert ExtendSpec(s, id, Some(a)).1.loans[id := l.(dueDate := l.dueDate + a + b)]
          == s.loans[id := l.(dueDate := l.dueDate + (a + b))];
    }
  }

  /**
   * As written, extend_due_date never stores a new due date: whenever the
   * intended action would move it by a non-zero number of days, the stored
   * due date stays where it was.
   */
  lemma ExtendAsWrittenDropsExtension(s: State, id: int, days: int)
    requires 0 <= id < |s.loans| && days != 0
    ensures ExtendAsWritten(s, id, Some(days)).0 == SaveRejected
    ensures ExtendAsWritten(s, id, Some(days)).1.loans[id].dueDate == s.loans[id].dueDate
    ensures ExtendSpec(s, id, Some(days)).1.loans[id].dueDate == s.loans[id].dueDate + days
    ensures ExtendAsWritten(s, id, Some(days)).1 != ExtendSpec(s, id, Some(days)).1
  {
  }

  /**
   * A book with two copies lent to two members, refused to a third request,
   * then returned by the first member, has one copy on the shelf again.
   */
  lemma LoanScenario(book: BookId, m1: MemberId, m2: MemberId, due: Day, today: Day)
    requires m1 != m2
    ensures var s0 := State(map[book := 2], {m1, m2}, []);
            var (o1, s1) := LoanSpec(s0, book, m1, due);
            var (o2, s2) := LoanSpec(s1, book, m2, due);
            var (o3, s3) := LoanSpec(s2, book, m1, due);
            var (o4, s4) := ReturnSpec(s3, book, m1, today);
            o1 == Ok && s1.copies[book] == 1 &&
            o2 == Ok && s2.copies[book] == 0 &&
            o3 == NoCopies && s3 == s2 &&
            o4 == Ok && s4.copies[book] == 1
  {
  }

  /**
   * The loan action does not stop a member from borrowing a second copy of a
   * book they already hold; return_book's get() then finds two active loans
   * and the request fails with nothing changed.
   */
  lemma DoubleLoanBlocksReturn(book: BookId, member: MemberId, due: Day, today: Day)
    ensures var s0 := State(map[book := 2], {member}, []);
            var (o1, s1) := LoanSpec(s0, book, member, due);
            var (o2, s2) := LoanSpec(s1, book, member, due);
            var (o3, s3) := ReturnSpec(s2, book, member, today);
            o1 == Ok && o2 == Ok && o3 == MultipleActiveLoans && s3 == s2
  {
  }
}
