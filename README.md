# Library loan lifecycle

A model of the loan lifecycle of a library-tracking backend: books with a
counter of available copies, a set of members, and a table of loans. Three
actions change that state:

- **loan** (`BookViewSet.loan`): refuse when the book has no copy left
  (checked first), then when the member does not exist; otherwise insert an
  active loan, take one copy, and queue a notification for the new loan;
- **return_book** (`BookViewSet.return_book`): look up the active loan of the
  (book, member) pair; when there is exactly one, close it, stamp today's date
  on it, and put the copy back;
- **extend_due_date** (`LoanViewSet.extend_due_date`): move a loan's stored
  due date forward by a validated number of days.

The project has three modules:

- `LoanState` (loan_state.dfy): the tables as a value (`State`), the outcome
  of a request (`Outcome`: success, the view's error responses, and the
  uncaught exceptions the code can raise), and each action as a function
  from the old state to the outcome and the new state (`LoanSpec`,
  `ReturnSpec`, `ExtendSpec`), plus the `get()` query of return_book
  (`GetActiveLoan`).
- `LoanProperties` (loan_properties.dfy): what the actions keep. No count of
  available copies goes negative. For each book, the copies on the shelf plus
  the copies out on active loans stay the same. The first two hold over any
  sequence of requests (`RunPreserves`). A return right after a loan, by a
  member who held no other active loan of that book, puts everything back
  except the closed loan record. Extensions add up.
- `LibraryViews` (library.dfy): a `Library` object whose fields are the
  tables, updated in place by `LendBook`, `ReturnBook` and `ExtendDueDate`.
  Each method's postcondition gives its outcome and new state as those of the
  matching function and says that it keeps the invariant and conserves copies.
  `FindActiveLoan` is the active-loan query as a scan of the loan table.

Dates are whole day numbers, so adding a `timedelta` of d days is `+ d`. The
current date and the due date a new loan receives are inputs. The book and
member ids are integers. A loan id is the loan's position in the table.

Behaviour of the code worth knowing:

- Nothing stops a member from borrowing a second copy of a book they already
  hold. The `get()` at library/views.py:59 then raises `MultipleObjectsReturned`, and
  return_book fails with nothing changed. The model has this outcome
  (`MultipleActiveLoans`), and `DoubleLoanBlocksReturn` shows it can be
  reached. Nothing in the loan action limits a member to one active loan of
  a book.
- `get_object()` answers "not found" for an unknown book or loan before any
  other check (`NotFound`).
- As written, extend_due_date does not store anything (see Findings). The
  `Library` class uses the intended behaviour.

## Model

| member | source | states |
|---|---|---|
| `LoanState.GetActiveLoan` | library/views.py:57-64 | The active-loan lookup finds nothing exactly when no loan of (book, member) is unreturned; when it finds one, that loan matches and no other does; it reports several exactly when two distinct loans match. |
| `LoanState.LoanSpec` | library/views.py:33-52 | Unknown book: not found. Fewer than one copy: "No available copies.", decided before the member is looked up. Unknown member: "Member does not exist.". Every refusal leaves the state unchanged. On success exactly one loan (book, member, not returned, no return date) is appended, the book loses one copy, and other books, members and existing loans are unchanged. |
| `LoanState.ReturnSpec` | library/views.py:55-72 | Unknown book: not found. No unreturned loan of (book, member): "Active loan does not exist.". Two or more: the get() failure. Every failure leaves the state unchanged. On success the matching loan is marked returned with today's date, every other loan is untouched, and the book gains one copy. |
| `LoanState.ExtendSpec` | library/views.py:91-101 | Unknown loan: not found, checked before input validation. Rejected input: validation error. Both leave the state unchanged. Otherwise the loan's due date becomes the stored due date plus the additional days; nothing else in the loan or the state changes. |
| `LoanState.ExtendAsWritten` | library/views.py:95-97 | The action as written: the same not-found and validation errors, and otherwise a failure inside save(); the state is unchanged in every case. |
| `LoanProperties.LoanConserves` | library/views.py:46-48 | A loan request keeps the set of books, and each book's available copies plus its active loans, unchanged. |
| `LoanProperties.ReturnConserves` | library/views.py:65-69 | A return request keeps the set of books, and each book's available copies plus its active loans, unchanged. |
| `LoanProperties.ExtendConserves` | library/views.py:95-97 | A due-date extension keeps each book's available copies plus its active loans unchanged. |
| `LoanProperties.StepPreserves` | library/views.py:33-101 | Any single request, whatever its outcome, keeps available copies non-negative (the decrement is guarded by the at-least-one check, the return only increments) and conserves each book's copies. |
| `LoanProperties.RunPreserves` | library/views.py:33-101 | Over any sequence of loan, return and extension requests, starting from non-negative counts, no count of available copies goes negative and each book's copies are conserved. |
| `LoanProperties.ReturnUndoesLoan` | library/views.py:46-69 | A member with no active loan of a book who borrows it and then returns it gets two successes. The copies, members and earlier loans are back as they were; the only trace is the new loan, now returned with today's date. |
| `LoanProperties.ExtendAdditive` | library/views.py:96 | Extending by a days and then by b days gives the same outcome and state as extending once by a + b days. |
| `LoanProperties.ExtendAsWrittenDropsExtension` | library/views.py:97 | For an existing loan and a non-zero extension, the code as written fails in save() and leaves the due date where it was, while the intended action moves it by the extension. |
| `LoanProperties.LoanScenario` | library/views.py:33-72 | A book with two copies: lent to one member leaves 1, to a second leaves 0, a third request is refused with nothing changed, and the first member's return brings it back to 1. |
| `LoanProperties.DoubleLoanBlocksReturn` | library/views.py:46-64 | A member who borrows two copies of the same book cannot return either: the lookup finds two active loans and the return fails with nothing changed. |
| `LibraryViews.FindActiveLoan` | library/views.py:59-60 | Scanning the loan table gives the same answer as the active-loan lookup (none, the one matching loan, or several). |
| `LibraryViews.Library.LendBook` | library/views.py:33-52 | The in-place loan action: outcome and new tables are those of `LoanSpec`. The new loan's id joins the notification queue exactly on success. Non-negative copies and conservation are kept. |
| `LibraryViews.Library.ReturnBook` | library/views.py:55-72 | The in-place return action: outcome and new tables are those of `ReturnSpec`. The notification queue is untouched. Non-negative copies and conservation are kept. |
| `LibraryViews.Library.ExtendDueDate` | library/views.py:91-101 | The in-place extension as intended: outcome and new tables are those of `ExtendSpec`. The notification queue is untouched. Non-negative copies and conservation are kept. |

## Findings

| source | as written | input that shows it | evidently intended | confidence | as-written member | corrected member |
|---|---|---|---|---|---|---|
| library/views.py:97 | `loan.save(updated_fields=["due_date"])` passes a keyword that Django's `Model.save` does not take (its keyword is `update_fields`), so the call raises `TypeError` and the new due date is never stored | any existing loan with a valid `additional_days`, e.g. 5 | save only the due date, so that the stored due date becomes the old one plus `additional_days` | likely; not executed (library/models.py is not part of this model, and a `save` override there accepting arbitrary keywords would change this) | `LoanState.ExtendAsWritten`, `LoanProperties.ExtendAsWrittenDropsExtension` | `LoanState.ExtendSpec`, `LoanProperties.ExtendAdditive` |

## Left out

- HTTP and framework plumbing: `Response` objects, status codes, `@action` routing. Outcomes are the `Outcome` datatype. `get_object()` is modelled only as the not-found outcome.
- The generic create/read/update/delete endpoints of every view set, and the paginator. They only delegate to the ORM and the serializers, which are not part of this model. As a consequence, books and members are never added or removed here. The starting state is a parameter of the `Library` constructor.
- `MemberViewSet.top_active`: an unfinished stub that computes and returns nothing.
- The notification task (`send_loan_notification.delay`): a fire-and-forget call to an external queue. It is modelled only as the `notified` log of queued loan ids.
- The rules of `ExtendLoanSerializer`: the serializer is not part of this model. Its verdict is the input `Option<int>`: `None` for a body it rejects, `Some(d)` for a validated day count.
- The database-side `F()` expression and `timezone.now()`: the extension is a plain addition to the stored due date, and today's date is an input.
- The due date and any other defaults that `Loan.objects.create` fills in come from library/models.py, which is not part of this model. The due date is an input of the loan action.
- A request body without `member_id`: `Member.objects.get(id=None)` matches no member, so this is the same as an unknown member id. The model takes the id as a plain integer. A `member_id` that is not a number at all, which makes the query itself raise, is not modelled.
- Concurrency: the read-then-write race on `available_copies` between simultaneous requests. The model serves requests one at a time.
- `LibraryViews.Library.constructor`: it requires non-negative starting counts. This is the one assumption behind "never negative". The Book model's field type is not part of this model, and the generic update endpoint could write any value.
- Ranges of dates, day counts and copy counts: day numbers, `additional_days` and `available_copies` are unbounded integers here. Three range errors are not modelled. `datetime.timedelta(days=additional_days)` at library/views.py:96 raises `OverflowError` beyond 999999999 days. A due date outside the calendar's range of years 1 to 9999 cannot be stored. The database column bounds the `available_copies += 1` at library/views.py:68.
- LoanState.ExtendSpec: promises success for every validated day count. The code would instead fail with a range error when the day count or the resulting due date is out of range, as the line above explains.
- LoanProperties.ExtendAdditive: holds for unbounded day numbers. With the range errors of the code, one of the two steps could fail where the single extension by a + b succeeds, or the reverse.
