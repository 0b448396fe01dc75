# Library management: a Dafny model

This project models the rules of a small library-management application: a
Spring backend (books, members, loans, user accounts and e-mail
verification) and a React administration front end. It covers the
domain entities and services of the backend, the repository queries those
services depend on, and the logic of the browser pages and helpers.
Every operation is stated against a specification, and the properties the
application promises are proved about those specifications.

## How the model is organised

Each source file of the core has a module of its own.

- **Values and building blocks.** `Wrappers` holds `Option` and `Result`.
  `Text` covers characters, Java `trim()`, JavaScript `toLowerCase()`,
  `includes` and decimal text. `Dates` covers `LocalDate` text.
- **Entities** (`BookEntity`, `LoanEntity`, `MemberEntity`, `UserEntity`,
  `VerificationEntities`). Each entity is a value row together with the
  pure functions that change it (`LoanCopy`, `Returned`, `MarkedOverdue`,
  and so on). Each also has a class whose methods update the fields in
  place, as the JPA entities do, and every such method is proved to
  perform its row function.
- **The database** (`Store`). The tables are maps from ids to rows,
  gathered in one `Tables` value, with `Valid` stating the constraints:
  ids agree with their keys, and references and unique columns hold.
  `Database` is the object the services update.
- **Repository queries** (`LoanRepository`, `CodeRepository`). Each
  query the services use is a function on the tables. A query with no
  `ORDER BY` gives a set of ids; an ordered one gives a sequence proved to
  be that order. `countByMemberAndStatus`, `findActiveLoansByMember` and
  `existsByBookId` are stated directly as the counts and sets they
  select, and the service lemmas use them in that form.
- **Services** (`BookService`, `LoanService`, `MemberService`,
  `AuthService`, `EmailService`). Each service operation is first a
  function `…Step(before, inputs)` returning the tables after the call
  and its result.
  - Every service that writes the database (`AuthService`,
    `BookService`, `LoanService`, `MemberService`) is `@Transactional`, so
    a step that ends in an error returns the tables it was given. This
    includes a mail that `EmailService`, which has no transaction of its
    own, fails to send from inside an `AuthService` call.
  - Lemmas prove that each step keeps `Valid`, and that the book stock
    stays consistent (`StockConsistent`): a book's copies out, its total
    minus its available copies, equal its loans not yet returned.
  - The service classes hold a `Database` and run the step in place; each
    method's contract is that connection.
- **Front end** (`Utils`, `Session`, `MainLayout`, `RegisterPage`,
  `EmailVerificationPage`, `ClientTypes`, `LoansPage`, `MembersPage`,
  `BooksPage`, `LookupModals`, `Lists`). The pages' state lists are
  fields of small classes, and their handlers are methods on them.
  - `localStorage` is a `map<string, string>`.
  - JavaScript's `filter`, `find`, `map` and `Math.max` are in `Lists`.

**Time.** The clock is always an input.
- `LocalDate.now()` is a day number `today`.
- `LocalDateTime.now()` is an instant in nanoseconds.
- `dayjs()` is an instant in milliseconds, local time; a date string
  stands for its local midnight.

**Other inputs.**
- Random draws are inputs, with the ranges `Random.nextInt` guarantees.
- New database ids are inputs that no row of the table uses yet.
- The password encoder is a function `enc`, and `matches(raw, hash)` is
  `enc(raw) == hash`.
- The JWT signer is a function `sign`.
- Whether a mail could be sent is a boolean input. A refused mail throws
  inside the transaction, so the step fails and the tables are unchanged.

**Integers.** Java `int` and `Integer` fields are modelled where their
width matters:
- the overdue fee is computed in 32-bit arithmetic and wraps, as
  `LoanEntity.ToInt32` shows;
- the fee total of `getTotalOverdueFeeByMember` fails when it does not
  fit.

## Model

| member | source | states |
|---|---|---|
| BookEntity.LoanCopy | backend/book/src/main/java/com/days/book/entity/Book.java:69-75 | lending succeeds exactly when a copy is on the shelf, takes exactly one copy off it, and changes nothing else |
| BookEntity.ReturnCopy | backend/book/src/main/java/com/days/book/entity/Book.java:77-81 | a return adds one copy exactly when the shelf is below the total, and otherwise leaves the book as it was |
| BookEntity.StockOperationsPreserveValidity | backend/book/src/main/java/com/days/book/entity/Book.java:69-81 | lending and returning keep 0 <= available <= total |
| BookEntity.LoanThenReturnRestores | backend/book/src/main/java/com/days/book/entity/Book.java:69-81 | a loan followed by a return gives back the original book |
| BookEntity.ReturnAtFullShelfIsIdentity | backend/book/src/main/java/com/days/book/entity/Book.java:77-81 | returning to a full shelf changes nothing |
| BookEntity.Book.constructor | backend/book/src/main/java/com/days/book/entity/Book.java:50-56 | a new book owns one copy and has it on the shelf |
| BookEntity.Book.LoanBook | backend/book/src/main/java/com/days/book/entity/Book.java:69-75 | `loanBook` in place: fails with no change when the shelf is empty, otherwise the new state is `LoanCopy` of the old |
| BookEntity.Book.ReturnBook | backend/book/src/main/java/com/days/book/entity/Book.java:77-81 | `returnBook` in place: the new state is `ReturnCopy` of the old |
| LoanEntity.ToInt32 | backend/book/src/main/java/com/days/book/entity/Loan.java:110 | the `(int)` cast lands in the 32-bit range, agrees with its argument modulo 2^32, and is the identity inside the range |
| LoanEntity.NewLoan | backend/book/src/main/java/com/days/book/entity/Loan.java:52-70 | a new loan is ACTIVE, due fourteen days after its loan date, with no fee, no return date and no notes |
| LoanEntity.OverdueDays | backend/book/src/main/java/com/days/book/entity/Loan.java:100-106 | overdue days are never negative, positive exactly when the check date (return date, else today) is after the due date, and then the distance between them |
| LoanEntity.OverdueFee | backend/book/src/main/java/com/days/book/entity/Loan.java:108-111 | the fee is 100 per overdue day whenever that fits in an `int`, 0 when there are no overdue days, and always in the 32-bit range |
| LoanEntity.IsOverdue | backend/book/src/main/java/com/days/book/entity/Loan.java:113-115 | for a loan not yet returned, `isOverdue` holds exactly when the loan is ACTIVE and owes at least one overdue day |
| LoanEntity.FeeIsPositiveWhenLate | backend/book/src/main/java/com/days/book/entity/Loan.java:108-111 | a late loan's fee is a positive multiple of 100 up to the point where the cast overflows |
| LoanEntity.FeeWrapsPastIntRange | backend/book/src/main/java/com/days/book/entity/Loan.java:110 | past 21474836 overdue days the narrowing cast makes the fee negative |
| LoanEntity.AppendNote | backend/book/src/main/java/com/days/book/entity/Loan.java:135 | a note is the entry alone when there were no notes, and otherwise the old notes, the separator `" | "` and the entry |
| LoanEntity.Returned | backend/book/src/main/java/com/days/book/entity/Loan.java:117-126 | a return records today as the return date and recomputes the fee; the status becomes OVERDUE exactly for an ACTIVE loan past due, and RETURNED otherwise (also for OVERDUE or LOST loans); nothing else changes |
| LoanEntity.MarkedLost | backend/book/src/main/java/com/days/book/entity/Loan.java:132-136 | marking lost sets LOST, recomputes the fee and appends a dated note, changing nothing else |
| LoanEntity.MarkedOverdue | backend/book/src/main/java/com/days/book/entity/Loan.java:138-143 | an ACTIVE loan past due becomes OVERDUE with its fee charged; any other loan is unchanged |
| LoanEntity.Extended | backend/book/src/main/java/com/days/book/entity/Loan.java:145-152 | an extension succeeds exactly for an ACTIVE loan not past due, and then moves the due date by 7 days and appends a dated note, changing nothing else |
| LoanEntity.OnTimeReturnIsFree | backend/book/src/main/java/com/days/book/entity/Loan.java:117-126 | a return on or before the due date gives RETURNED with no fee |
| LoanEntity.LateReturnKeepsOverdueStatus | backend/book/src/main/java/com/days/book/entity/Loan.java:117-126 | a late return of an ACTIVE loan gives OVERDUE and a fee of 100 per late day |
| LoanEntity.MarkOverdueIdempotent | backend/book/src/main/java/com/days/book/entity/Loan.java:138-152 | marking overdue twice is the same as once, and a loan it marks can no longer be extended |
| LoanEntity.ExtensionPostponesOverdue | backend/book/src/main/java/com/days/book/entity/Loan.java:145-152 | after an extension the loan is not overdue up to the new due date |
| LoanEntity.NewLoanGracePeriod | backend/book/src/main/java/com/days/book/entity/Loan.java:52-70 | a new loan is not overdue, and is returned free of charge, during its first fourteen days |
| LoanEntity.Loan.constructor | backend/book/src/main/java/com/days/book/entity/Loan.java:52-70 | the builder's defaults, with the book it refers to |
| LoanEntity.Loan.ReturnBook | backend/book/src/main/java/com/days/book/entity/Loan.java:117-130 | `returnBook` in place: the new state is `Returned` of the old, and a referenced book gets its copy back through `Book.returnBook` |
| LoanEntity.Loan.MarkAsLost | backend/book/src/main/java/com/days/book/entity/Loan.java:132-136 | `markAsLost` in place: the new state is `MarkedLost` of the old |
| LoanEntity.Loan.MarkAsOverdue | backend/book/src/main/java/com/days/book/entity/Loan.java:138-143 | `markAsOverdue` in place: the new state is `MarkedOverdue` of the old |
| LoanEntity.Loan.ExtendLoan | backend/book/src/main/java/com/days/book/entity/Loan.java:145-152 | `extendLoan` answers true exactly when the loan could be extended; it then takes the extended state, and otherwise nothing changes |
| MemberEntity.WithStatus | backend/book/src/main/java/com/days/book/entity/Member.java:90-100 | a status change sets the status and nothing else |
| MemberEntity.StatusChangeDecidesLoans | backend/book/src/main/java/com/days/book/entity/Member.java:86-100 | after a status change the member may borrow exactly when the new status is ACTIVE, and the last change wins (so each change is idempotent) |
| MemberEntity.MemberNumberFormat | backend/book/src/main/java/com/days/book/entity/Member.java:102-106 | a member number is 12 characters long: "M", the eight-digit yyyyMMdd date, then three digits that read back as the milliseconds modulo 1000 |
| MemberEntity.Member.constructor | backend/book/src/main/java/com/days/book/entity/Member.java:50-60 | a new member joined today, is ACTIVE and may borrow five books |
| MemberEntity.Member.Suspend | backend/book/src/main/java/com/days/book/entity/Member.java:90-92 | `suspend` in place sets SUSPENDED and nothing else |
| MemberEntity.Member.Activate | backend/book/src/main/java/com/days/book/entity/Member.java:94-96 | `activate` in place sets ACTIVE and nothing else |
| MemberEntity.Member.Withdraw | backend/book/src/main/java/com/days/book/entity/Member.java:98-100 | `withdraw` in place sets WITHDRAWN and nothing else |
| UserEntity.Authorities | backend/book/src/main/java/com/days/book/entity/User.java:109-112 | an account has exactly one authority, "ROLE_" followed by its role's name |
| UserEntity.AuthoritiesIdentifyRole | backend/book/src/main/java/com/days/book/entity/User.java:109-112 | two accounts have the same authorities exactly when they have the same role |
| UserEntity.AccountAlwaysUsable | backend/book/src/main/java/com/days/book/entity/User.java:114-132 | no account is ever expired, locked, out of date or disabled |
| UserEntity.WithMemberStatus | backend/book/src/main/java/com/days/book/entity/User.java:152-166 | a status change sets the member status and nothing else, and the account may then borrow exactly when that status is ACTIVE |
| UserEntity.User.constructor | backend/book/src/main/java/com/days/book/entity/User.java:51-66 | a new account joined today, is ACTIVE, may borrow five books and has an unverified e-mail |
| UserEntity.User.Suspend | backend/book/src/main/java/com/days/book/entity/User.java:156-158 | `suspend` in place |
| UserEntity.User.Activate | backend/book/src/main/java/com/days/book/entity/User.java:160-162 | `activate` in place |
| UserEntity.User.Withdraw | backend/book/src/main/java/com/days/book/entity/User.java:164-166 | `withdraw` in place |
| VerificationEntities.IssuedCode | backend/book/src/main/java/com/days/book/entity/VerificationCode.java:33-42 | a code issued now expires five minutes later, is unused and records its creation time |
| VerificationEntities.IssuedCodeValidFiveMinutes | backend/book/src/main/java/com/days/book/entity/VerificationCode.java:49-55 | a fresh code is valid exactly up to and including its expiry instant |
| VerificationEntities.ValidityIsMonotone | backend/book/src/main/java/com/days/book/entity/VerificationCode.java:49-55 | validity only ever ends, and a used code is never valid whatever the time |
| VerificationEntities.RecordFreshForFiveMinutes | backend/book/src/main/java/com/days/book/entity/EmailVerification.java:38-56 | a record built by the constructor is not expired during the five minutes after its creation |
| VerificationEntities.EmailVerification.constructor | backend/book/src/main/java/com/days/book/entity/EmailVerification.java:38-44 | the constructor stores its arguments, expires five minutes after its second clock reading, and starts unverified |
| VerificationEntities.EmailVerification.MarkAsVerified | backend/book/src/main/java/com/days/book/entity/EmailVerification.java:61-63 | `markAsVerified` sets `verified` and nothing else, so repeating it changes nothing |
| Store.Single | backend/book/src/main/java/com/days/book/repository/VerificationCodeRepository.java:22-39 | a query declared to return an `Optional` answers nothing exactly when no row matches, the row when exactly one matches, and fails only when two different rows match |
| Store.FindUserByUsername | backend/book/src/main/java/com/days/book/service/AuthService.java:43 | the lookup finds nothing exactly when no account has the username, and otherwise the one account that has it |
| Store.FindUserByEmail | backend/book/src/main/java/com/days/book/service/AuthService.java:48 | the lookup finds nothing exactly when no account has the e-mail, and otherwise the one account that has it |
| Store.FindMemberByEmail | backend/book/src/main/java/com/days/book/repository/MemberRepository.java:20 | the lookup finds nothing exactly when no member has the e-mail, and otherwise a member with it |
| Store.FindBookByIsbn | backend/book/src/main/java/com/days/book/repository/BookRepository.java:16 | the lookup finds nothing exactly when no book has the ISBN, and otherwise a book with it |
| LoanRepository.FindOverdueLoans | backend/book/src/main/java/com/days/book/repository/LoanRepository.java:83-84 | exactly the ACTIVE loans whose due date is before today |
| LoanRepository.DeleteByMember | backend/book/src/main/java/com/days/book/repository/LoanRepository.java:80 | exactly the member's loans are removed; the others are kept unchanged |
| LoanRepository.UpdateBookToNull | backend/book/src/main/java/com/days/book/repository/LoanRepository.java:113-116 | the loans of that book lose the book reference and every other loan, and every other field, is unchanged |
| LoanRepository.UpdateBookToNullDetaches | backend/book/src/main/java/com/days/book/repository/LoanRepository.java:76-77 | afterwards `existsByBookId` is false for that book |
| LoanRepository.SumFeesRemove | backend/book/src/main/java/com/days/book/repository/LoanRepository.java:66 | the SQL sum does not depend on the order of the rows |
| LoanRepository.SumFeesInsert | backend/book/src/main/java/com/days/book/repository/LoanRepository.java:66 | one more row adds exactly its fee to the sum |
| LoanRepository.SumFeesNonNegative | backend/book/src/main/java/com/days/book/repository/LoanRepository.java:66 | with no negative fee the sum is never negative |
| LoanRepository.TotalOverdueFeeByMember | backend/book/src/main/java/com/days/book/repository/LoanRepository.java:66-67 | the member's total fee is the sum of their loans' fees, 0 when they have none, and fails when the sum does not fit in an `Integer` |
| LoanRepository.MostRecent | backend/book/src/main/java/com/days/book/repository/LoanRepository.java:127 | the first loan in recency order comes before every other one |
| LoanRepository.ByRecency | backend/book/src/main/java/com/days/book/repository/LoanRepository.java:127 | `ORDER BY loanDate DESC, id DESC` gives every loan exactly once, newest first |
| LoanRepository.HeadComesFirst | backend/book/src/main/java/com/days/book/repository/LoanRepository.java:127 | the head of a list in that order comes before every other element |
| LoanRepository.SortedIsUnique | backend/book/src/main/java/com/days/book/repository/LoanRepository.java:127 | that order is total, so the ordered result is fully determined |
| LoanRepository.ToDto | backend/book/src/main/java/com/days/book/repository/LoanRepository.java:119-126 | a projected row keeps the loan's fields, shows id 0 and "삭제된 도서" for a missing book and "삭제된 회원" for a missing member, and always reports 0 overdue days and not overdue |
| LoanRepository.ProjectAll | backend/book/src/main/java/com/days/book/repository/LoanRepository.java:119-123 | the projection maps each row in order |
| LoanRepository.FindAllLoansAsDto | backend/book/src/main/java/com/days/book/repository/LoanRepository.java:119-128 | `findAllLoansAsDTO` lists every loan exactly once, newest first, each projected as `ToDto` says |
| CodeRepository.ValidCodes | backend/book/src/main/java/com/days/book/repository/VerificationCodeRepository.java:19-21 | `findValidCode` selects exactly the codes with that e-mail, code and type that are unused and whose expiry is after now |
| CodeRepository.QueryAgreesWithIsValid | backend/book/src/main/java/com/days/book/repository/VerificationCodeRepository.java:21 | the query agrees with `VerificationCode.isValid` except at the expiry instant, where `isValid` accepts the code and the query does not |
| CodeRepository.FindValidCode | backend/book/src/main/java/com/days/book/repository/VerificationCodeRepository.java:19-25 | the `Optional` answer is empty exactly when no code matches, names the only match when there is one, and fails as non-unique exactly when two codes match |
| CodeRepository.LatestCandidates | backend/book/src/main/java/com/days/book/repository/VerificationCodeRepository.java:32-34 | the rows `findLatestValidCode` filters: same e-mail and type, unused and unexpired |
| CodeRepository.FindLatestValidCodeAsWritten | backend/book/src/main/java/com/days/book/repository/VerificationCodeRepository.java:32-38 | as declared, the `Optional` answer is empty exactly when no code of that e-mail and type is valid, names the only one when there is one, and fails as non-unique exactly when two are valid |
| CodeRepository.LatestOf | backend/book/src/main/java/com/days/book/repository/VerificationCodeRepository.java:34 | the newest row of a non-empty set was created after every other one |
| CodeRepository.FindLatestValidCode | backend/book/src/main/java/com/days/book/repository/VerificationCodeRepository.java:29-39 | the intended query: nothing exactly when no code qualifies, otherwise the newest qualifying code |
| CodeRepository.LatestAgreesWhenUnique | backend/book/src/main/java/com/days/book/repository/VerificationCodeRepository.java:32-39 | where the declared query answers at all, it answers what the intended one does |
| CodeRepository.TwoRecentCodesBreakLatestQuery | backend/book/src/main/java/com/days/book/repository/VerificationCodeRepository.java:32-39 | two codes issued a minute apart make the declared query fail, where the newer code was meant |
| CodeRepository.DeleteByExpiresAtBefore | backend/book/src/main/java/com/days/book/repository/VerificationCodeRepository.java:44 | exactly the codes that expired before the cut-off are removed; the others are kept unchanged |
| CodeRepository.PurgeKeepsValidCodes | backend/book/src/main/java/com/days/book/repository/VerificationCodeRepository.java:19-44 | a purge with a cut-off no later than now never removes a code `findValidCode` could return |
| BookService.SaveBookStep | backend/book/src/main/java/com/days/book/service/BookService.java:21-28 | `saveBook` refuses exactly an ISBN already catalogued, leaving the tables alone; otherwise it inserts the book under its new id |
| BookService.SaveBookPreserves | backend/book/src/main/java/com/days/book/service/BookService.java:21-28 | saving keeps the table constraints, and keeps the stock consistent when the new book has every copy on the shelf |
| BookService.Recount | backend/book/src/main/java/com/days/book/service/BookService.java:107-119 | a recount refuses a negative total, then a total below the copies on loan; otherwise it sets the total and keeps the number of copies on loan, so 0 <= available <= total |
| BookService.UpdateBookCopiesStep | backend/book/src/main/java/com/days/book/service/BookService.java:103-122 | `updateBookCopies` refuses an unknown id, and otherwise applies `Recount` to the stored book; a refusal changes nothing |
| BookService.RecountPreserves | backend/book/src/main/java/com/days/book/service/BookService.java:111-119 | changing a book's total while keeping its copies on loan keeps the constraints and the stock consistent |
| BookService.UpdateBookCopiesPreserves | backend/book/src/main/java/com/days/book/service/BookService.java:103-122 | `updateBookCopies` keeps the constraints and the stock consistent |
| BookService.UpdateBookStep | backend/book/src/main/java/com/days/book/service/BookService.java:79-101 | `updateBook` refuses an unknown id and an ISBN another book holds (keeping the same ISBN is allowed); past those two checks it succeeds exactly when no total is given or the recount accepts the total, and a refused recount fails with the recount's own error and changes nothing; it copies the descriptive fields, keeps both counts when no total is given, and otherwise recounts keeping the copies on loan |
| BookService.UpdateBookPreserves | backend/book/src/main/java/com/days/book/service/BookService.java:79-101 | `updateBook` keeps the constraints and the stock consistent |
| BookService.DeleteBookStep | backend/book/src/main/java/com/days/book/service/BookService.java:125-134 | `deleteBook` fails for an unknown id, for a book with a copy out, and (through the loans' foreign key) for a book any loan refers to; otherwise only that book is removed |
| BookService.DeleteBookPreserves | backend/book/src/main/java/com/days/book/service/BookService.java:125-134 | deleting keeps the constraints and the stock consistent |
| BookService.CopyOutImpliesReferenced | backend/book/src/main/java/com/days/book/service/BookService.java:129-131 | with consistent stock, a book with a copy out always has a loan referring to it |
| BookService.SearchBooksByKeyword | backend/book/src/main/java/com/days/book/service/BookService.java:56-61 | a missing or blank keyword gives every book; otherwise the books whose title or author contains the trimmed keyword |
| BookService.BookService.SaveBook | backend/book/src/main/java/com/days/book/service/BookService.java:21-28 | the method runs `SaveBookStep` in place |
| BookService.BookService.UpdateBookCopies | backend/book/src/main/java/com/days/book/service/BookService.java:103-122 | the method runs `UpdateBookCopiesStep` in place |
| BookService.BookService.UpdateBook | backend/book/src/main/java/com/days/book/service/BookService.java:79-101 | the method runs `UpdateBookStep` in place |
| BookService.BookService.DeleteBook | backend/book/src/main/java/com/days/book/service/BookService.java:125-134 | the method runs `DeleteBookStep` in place |
| LoanService.CheckEligibility | backend/book/src/main/java/com/days/book/service/LoanService.java:244-270 | eligible exactly when the member is ACTIVE, a copy is on the shelf, the member's ACTIVE loans are below the limit, and none of them is of this book (or has lost its book reference, where the source's check throws); the first failing check, in that order, is the error reported |
| LoanService.CreateLoanStep | backend/book/src/main/java/com/days/book/service/LoanService.java:36-59 | `createLoan` fails for an unknown book or member and for an ineligible pair, changing nothing; otherwise it adds exactly one new ACTIVE loan due in 14 days with no fee and takes exactly one copy of the book off the shelf |
| LoanService.CreateLoanPreserves | backend/book/src/main/java/com/days/book/service/LoanService.java:36-59 | `createLoan` keeps the table constraints and keeps each book's copies on loan equal to its unreturned loans |
| LoanService.LendingKeepsStock | backend/book/src/main/java/com/days/book/service/LoanService.java:54-58 | one copy off the shelf together with one new outstanding loan keeps the stock consistent |
| LoanService.CreateLoanRespectsLimit | backend/book/src/main/java/com/days/book/service/LoanService.java:255-260 | after a successful `createLoan` the member holds at most their maximum number of ACTIVE loans |
| LoanService.ApplyReturn | backend/book/src/main/java/com/days/book/service/LoanService.java:73-75 | a return closes the loan row as `Loan.returnBook` does and gives the book, when there is one, its copy back; nothing else changes |
| LoanService.ReturnBookStepAsWritten | backend/book/src/main/java/com/days/book/service/LoanService.java:64-76 | `returnBook` as written refuses only an unknown or RETURNED loan, so a loan left OVERDUE by a late return is accepted again |
| LoanService.ReturnBookStep | backend/book/src/main/java/com/days/book/service/LoanService.java:64-76 | the corrected return refuses an unknown loan and every loan already handed back (one with a return date); otherwise it applies the return and records today as the return date |
| LoanService.ReturnAgreesOnUnreturned | backend/book/src/main/java/com/days/book/service/LoanService.java:64-76 | the two returns agree on every loan that has no return date yet |
| LoanService.ReturnBookPreserves | backend/book/src/main/java/com/days/book/service/LoanService.java:64-76 | the corrected return keeps the constraints and the stock consistent |
| LoanService.FirstReturnIsLate | backend/book/src/main/java/com/days/book/entity/Loan.java:117-126 | a late first return leaves the loan OVERDUE with a return date and one copy back |
| LoanService.DoubleReturnBreaksStock | backend/book/src/main/java/com/days/book/service/LoanService.java:64-76 | returning that loan a second time is accepted as written and leaves both copies on the shelf while the other loan is still out; the corrected return refuses it |
| LoanService.ExtendLoanStep | backend/book/src/main/java/com/days/book/service/LoanService.java:81-89 | `extendLoan` fails for an unknown loan and for one `Loan.extendLoan` refuses, changing nothing; otherwise only that loan is replaced by its extension |
| LoanService.ExtendLoanPreserves | backend/book/src/main/java/com/days/book/service/LoanService.java:81-89 | extending keeps the constraints and the stock consistent |
| LoanService.MarkAsLostStep | backend/book/src/main/java/com/days/book/service/LoanService.java:94-103 | `markAsLost` fails only for an unknown loan; it marks the loan lost and appends " \| 분실사유: " and the reason exactly when a non-blank reason is given |
| LoanService.MarkAsLostPreserves | backend/book/src/main/java/com/days/book/service/LoanService.java:94-103 | a lost copy stays counted as out, so marking lost keeps the stock consistent |
| LoanService.SweptOverdue | backend/book/src/main/java/com/days/book/service/LoanService.java:185-194 | the sweep applies `markAsOverdue` to every loan and keeps the set of loans |
| LoanService.SweepLeavesNoOverdue | backend/book/src/main/java/com/days/book/service/LoanService.java:185-194 | after the sweep no ACTIVE loan is past due, and the constraints and the stock stay consistent |
| LoanService.MemberOfUser | backend/book/src/main/java/com/days/book/service/LoanService.java:279-281 | the member looked up for a user is one with the user's e-mail, and there is none exactly when the user is unknown or no member has that e-mail |
| LoanService.ActiveLoansByUserId | backend/book/src/main/java/com/days/book/service/LoanService.java:277-286 | the number of the user's member's ACTIVE loans, and 0 when the user or the member is missing |
| LoanService.OverdueLoansByUserId | backend/book/src/main/java/com/days/book/service/LoanService.java:288-301 | the number of the user's member's ACTIVE loans due before today, and 0 when the user or the member is missing |
| LoanService.TotalLoansByUserId | backend/book/src/main/java/com/days/book/service/LoanService.java:303-313 | the number of all loans of the user's member, and 0 when the user or the member is missing |
| LoanService.CountersOrdered | backend/book/src/main/java/com/days/book/service/LoanService.java:276-313 | a user's overdue count is at most their active count, which is at most their total |
| LoanService.RecentLoansByUserId | backend/book/src/main/java/com/days/book/service/LoanService.java:315-328 | at most `limit` loans, all of the user's member, newest first and a prefix of their history; empty when the lookup fails or the limit is negative |
| LoanService.MemberHistory | backend/book/src/main/java/com/days/book/repository/LoanRepository.java:31 | `findByMemberOrderByLoanDateDesc` lists every loan of the member exactly once and no other, newest first |
| LoanService.LoanService.CreateLoan | backend/book/src/main/java/com/days/book/service/LoanService.java:36-59 | the method performs `CreateLoanStep` on the database |
| LoanService.LoanService.ReturnBook | backend/book/src/main/java/com/days/book/service/LoanService.java:64-76 | the method performs the corrected `ReturnBookStep` on the database |
| LoanService.LoanService.ExtendLoan | backend/book/src/main/java/com/days/book/service/LoanService.java:81-89 | the method performs `ExtendLoanStep` on the database |
| LoanService.LoanService.MarkAsLost | backend/book/src/main/java/com/days/book/service/LoanService.java:94-103 | the method performs `MarkAsLostStep` on the database |
| LoanService.LoanService.UpdateOverdueStatus | backend/book/src/main/java/com/days/book/service/LoanService.java:185-194 | the loop marks every loan `findOverdueLoans(today)` returns, leaves the rest of the database alone, and answers how many there were |
| MemberService.FirstFreeDraw | backend/book/src/main/java/com/days/book/service/MemberService.java:36-40 | the do-while loop stops at the first drawn member number that is not yet taken; every earlier draw gave a taken number |
| MemberService.FullDayRollsOver | backend/book/src/main/java/com/days/book/service/MemberService.java:36-40 | each draw reads the date again: when all thousand numbers of a day are taken and the draws so far carry that day, the loop stops at the first free draw, and that draw carries a later date |
| MemberService.NewMember | backend/book/src/main/java/com/days/book/service/MemberService.java:42-53 | the stored member gets the drawn number, and today, ACTIVE and 5 only where the request left join date, status or loan limit out |
| MemberService.CreateMemberStep | backend/book/src/main/java/com/days/book/service/MemberService.java:30-56 | `createMember` fails exactly when the e-mail is already registered, changing nothing; otherwise it stores the new member under the first drawn member number that no other member has, each draw reading its own date and clock |
| MemberService.CreateMemberPreserves | backend/book/src/main/java/com/days/book/service/MemberService.java:30-56 | creating a member keeps unique e-mails and member numbers, and the stock stays consistent |
| MemberService.UpdateMemberStep | backend/book/src/main/java/com/days/book/service/MemberService.java:88-106 | `updateMember` fails for an unknown id, for a changed e-mail that another member has (an unchanged one is fine) and for a missing loan limit, which the NOT NULL column refuses; otherwise it copies exactly name, e-mail, phone, address and loan limit |
| MemberService.UpdateMemberPreserves | backend/book/src/main/java/com/days/book/service/MemberService.java:98-105 | an edit keeps member number, join date and status, and keeps every invariant |
| MemberService.WithoutUserOf | backend/book/src/main/java/com/days/book/service/MemberService.java:120-123 | exactly the accounts with the member's e-mail are removed; the others are unchanged |
| MemberService.DeleteMemberStep | backend/book/src/main/java/com/days/book/service/MemberService.java:111-127 | `deleteMember` fails for an unknown member and for one any loan refers to, whatever that loan's status; otherwise the member and the account with the same e-mail are removed |
| MemberService.DeleteMemberPreserves | backend/book/src/main/java/com/days/book/service/MemberService.java:111-127 | deleting keeps every invariant |
| MemberService.ForceDeleteMemberStep | backend/book/src/main/java/com/days/book/service/MemberService.java:150-165 | `forceDeleteMember` fails only for an unknown member; otherwise it removes the member's loans, the account with the same e-mail and the member |
| MemberService.ForceDeleteMemberStock | backend/book/src/main/java/com/days/book/service/MemberService.java:153-156 | removing the loans does not put their copies back on the shelf: the stock stays consistent exactly when the member held no copy |
| MemberService.ChangeStatusStep | backend/book/src/main/java/com/days/book/service/MemberService.java:170-192 | activating, suspending or withdrawing fails only for an unknown member, and otherwise changes that member's status and nothing else |
| MemberService.ChangeStatusPreserves | backend/book/src/main/java/com/days/book/service/MemberService.java:170-192 | status changes keep every invariant and are idempotent |
| MemberService.SearchMembers | backend/book/src/main/java/com/days/book/service/MemberService.java:197-203 | a missing or blank keyword gives every member; otherwise the members whose name or e-mail contains the trimmed keyword |
| MemberService.MemberService.CreateMember | backend/book/src/main/java/com/days/book/service/MemberService.java:30-56 | the method, with its do-while draw loop, performs `CreateMemberStep` on the database |
| MemberService.MemberService.UpdateMember | backend/book/src/main/java/com/days/book/service/MemberService.java:88-106 | the method performs `UpdateMemberStep` on the database |
| MemberService.MemberService.DeleteMember | backend/book/src/main/java/com/days/book/service/MemberService.java:111-127 | the method performs `DeleteMemberStep` on the database |
| MemberService.MemberService.ForceDeleteMember | backend/book/src/main/java/com/days/book/service/MemberService.java:150-165 | the method performs `ForceDeleteMemberStep` on the database |
| MemberService.MemberService.ChangeStatus | backend/book/src/main/java/com/days/book/service/MemberService.java:170-192 | the method performs `ChangeStatusStep` on the database |
| AuthService.Reused | backend/book/src/main/java/com/days/book/service/AuthService.java:56-70 | the account a registration reuses is the one holding the username, else the one holding the e-mail, and there is none exactly when neither exists |
| AuthService.RegisterStep | backend/book/src/main/java/com/days/book/service/AuthService.java:41-100 | `register` refuses with "username taken" exactly when a verified account holds the username, and with "e-mail taken" exactly when none does but a verified account holds the e-mail; when both checks pass it fails with "conflict" exactly when the saved row would share its username, e-mail or member number with another account (the unique columns of `users`), and succeeds whenever there is no such clash and the mail is delivered; every refusal, and a refused mail, changes nothing; on success exactly one account row is written, under the username holder's id, else the e-mail holder's, else the new id, and that account was unverified; the row carries the form's username, e-mail and name, the encoded password, an unverified e-mail and the new six-digit token; a reused row keeps its role, a new row gets role USER |
| AuthService.DuplicateCheck | backend/book/src/main/java/com/days/book/service/AuthService.java:43-51 | the two duplicate checks in order: the username refusal exactly when a verified account holds the username, the e-mail refusal exactly when none does and a verified account holds the e-mail, and no refusal otherwise |
| AuthService.SaveRegistration | backend/book/src/main/java/com/days/book/service/AuthService.java:53-98 | after both checks pass, the save fails with "conflict" exactly when the row shares a unique column with another account, a refused mail fails, and both failures change nothing; a delivered mail with no clash succeeds, and the one row written is the reused account's, else a new one, unverified and carrying the form and the token |
| AuthService.RegisterWritesOneRow | backend/book/src/main/java/com/days/book/service/AuthService.java:56-92 | a registration that reuses an account keeps the set of account ids and puts the form's username on that account; one that reuses none adds exactly the new id |
| AuthService.Registered | backend/book/src/main/java/com/days/book/service/AuthService.java:56-92 | the account row `register` saves carries the form's username, e-mail, name and encoded password and the new token; a reused unverified row keeps its id, role and unverified flag, a new row gets the new id, role USER and an unverified e-mail |
| AuthService.RegisterPreserves | backend/book/src/main/java/com/days/book/service/AuthService.java:41-100 | a registration keeps every table constraint |
| AuthService.RegisterReusesUnverified | backend/book/src/main/java/com/days/book/service/AuthService.java:58-67 | an unverified account holding the username is overwritten in place: the username is not refused and no row is added |
| AuthService.Credentials | backend/book/src/main/java/com/days/book/service/AuthService.java:105-118 | the login checks in order: an unknown username, then a wrong password, then an unverified e-mail unless the username is "admin"; passing gives the account with that username and password |
| AuthService.LoginStepAsWritten | backend/book/src/main/java/com/days/book/service/AuthService.java:120-129 | as written, a failing login changes nothing, because the class-wide transaction rolls back the orphan delete before the exception leaves |
| AuthService.LoginStep | backend/book/src/main/java/com/days/book/service/AuthService.java:105-140 | the intended login succeeds exactly when the credentials pass and the account is "admin" or has a member row with its e-mail, and then returns the token, username, name and role; an orphaned account is deleted and the login fails |
| AuthService.LoginRequiresVerifiedMember | backend/book/src/main/java/com/days/book/service/AuthService.java:115-129 | a non-admin logs in exactly when the account exists, the password matches, the e-mail is verified and a member row has that e-mail |
| AuthService.OrphanLoginRollsBack | backend/book/src/main/java/com/days/book/service/AuthService.java:120-129 | as written the orphaned account survives, so the same login fails the same way forever; as intended the account is gone and the next attempt fails at the lookup |
| AuthService.VerifyEmailStep | backend/book/src/main/java/com/days/book/service/AuthService.java:145-158 | `verifyEmail` fails for an unknown e-mail and for a token other than the stored one, changing nothing; otherwise it verifies the account and clears its token |
| AuthService.VerifyEmailOnce | backend/book/src/main/java/com/days/book/service/AuthService.java:145-158 | a token verifies only once: repeating the call fails, and the account is now verified |
| AuthService.IssueCode | backend/book/src/main/java/com/days/book/service/AuthService.java:171-184 | the intended save: a code is saved unused with a five-minute expiry, the six-digit drawn value and its issue instant as creation time; a refused mail rolls the save back |
| AuthService.IssueCodeAsWritten | backend/book/src/main/java/com/days/book/service/AuthService.java:171-181 | the save as written: a built row whose `createdAt` is null is refused and the call fails with nothing saved; a row whose `createdAt` is the issue instant is saved as `IssueCode` saves it |
| AuthService.BuiltCodeIsNeverSaved | backend/book/src/main/java/com/days/book/service/AuthService.java:171-184 | with the null `createdAt` the builder leaves, issuing fails whatever the mail server does and the code stays unfindable, while the intended save makes it findable at once |
| AuthService.SendFindIdCodeStep | backend/book/src/main/java/com/days/book/service/AuthService.java:163-188 | `sendFindIdCode` fails exactly for an unknown e-mail; otherwise it saves a FIND_ID code carrying that account's username |
| AuthService.IssuedCodeFindable | backend/book/src/main/java/com/days/book/service/AuthService.java:171-181 | an issued code is found by `findValidCode` at any later instant before its expiry |
| AuthService.Consume | backend/book/src/main/java/com/days/book/service/AuthService.java:199-201 | consuming marks that one code used and changes nothing else |
| AuthService.VerifyFindIdCodeStep | backend/book/src/main/java/com/days/book/service/AuthService.java:193-212 | `verifyFindIdCode` fails with "invalid code" exactly when no valid FIND_ID code matches, with "non-unique" exactly when two do, and with a mail failure exactly when one does and the mail is refused; it succeeds whenever exactly one matches and the mail is delivered; a failure changes nothing, and success consumes that code and returns its username |
| AuthService.ConsumedLeavesNone | backend/book/src/main/java/com/days/book/service/AuthService.java:199-201 | once the only valid code is consumed, no code matches from then on |
| AuthService.FindIdCodeSingleUse | backend/book/src/main/java/com/days/book/service/AuthService.java:193-212 | a find-id code that verified once fails when it is presented again |
| AuthService.SendResetPasswordCodeStep | backend/book/src/main/java/com/days/book/service/AuthService.java:217-246 | `sendResetPasswordCode` fails for an unknown username, then for a username registered under another e-mail; otherwise it saves a RESET_PASSWORD code for that username |
| AuthService.ResetCode | backend/book/src/main/java/com/days/book/service/AuthService.java:251-260 | the reset lookup succeeds exactly when one valid RESET_PASSWORD code matches and it was issued to that username; no match is an invalid code |
| AuthService.VerifyResetPasswordCode | backend/book/src/main/java/com/days/book/service/AuthService.java:251-266 | `verifyResetPasswordCode` only checks the code and changes nothing |
| AuthService.ResetPasswordWithCodeStep | backend/book/src/main/java/com/days/book/service/AuthService.java:271-296 | `resetPasswordWithCode` succeeds exactly when the code checks out and the account exists; it then sets the encoded new password and consumes the code, and otherwise changes nothing |
| AuthService.ResetPasswordFlow | backend/book/src/main/java/com/days/book/service/AuthService.java:251-296 | verifying does not consume the code, so the reset still succeeds; afterwards the code no longer verifies and the new password passes the login's password check |
| AuthService.WithdrawUserStep | backend/book/src/main/java/com/days/book/service/AuthService.java:301-321 | `withdrawUser` checks for an unknown username, then the password, then refuses "admin"; otherwise it deletes that account only |
| AuthService.WithdrawKeepsAdmin | backend/book/src/main/java/com/days/book/service/AuthService.java:311-317 | "admin" is never deleted, and a withdrawn account can no longer log in |
| AuthService.AuthService.Register | backend/book/src/main/java/com/days/book/service/AuthService.java:41-100 | the method performs `RegisterStep` on the database |
| AuthService.AuthService.Login | backend/book/src/main/java/com/days/book/service/AuthService.java:105-140 | the method performs the intended `LoginStep` on the database |
| AuthService.AuthService.VerifyEmail | backend/book/src/main/java/com/days/book/service/AuthService.java:145-158 | the method performs `VerifyEmailStep` on the database |
| AuthService.AuthService.SendFindIdCode | backend/book/src/main/java/com/days/book/service/AuthService.java:163-188 | the method performs `SendFindIdCodeStep` on the database |
| AuthService.AuthService.VerifyFindIdCode | backend/book/src/main/java/com/days/book/service/AuthService.java:193-212 | the method performs `VerifyFindIdCodeStep` on the database |
| AuthService.AuthService.SendResetPasswordCode | backend/book/src/main/java/com/days/book/service/AuthService.java:217-246 | the method performs `SendResetPasswordCodeStep` on the database |
| AuthService.AuthService.ResetPasswordWithCode | backend/book/src/main/java/com/days/book/service/AuthService.java:271-296 | the method performs `ResetPasswordWithCodeStep` on the database |
| AuthService.AuthService.WithdrawUser | backend/book/src/main/java/com/days/book/service/AuthService.java:301-321 | the method performs `WithdrawUserStep` on the database |
| EmailService.VerificationCode | backend/book/src/main/java/com/days/book/service/EmailService.java:21-25 | the code is six decimal digits without a leading zero, and its value is 100000 plus the draw, so every code lies in 100000..999999 |
| EmailService.VerificationCodeInjective | backend/book/src/main/java/com/days/book/service/EmailService.java:21-25 | two draws give the same code exactly when they are equal |
| EmailService.EmailVerificationToken | backend/book/src/main/java/com/days/book/service/EmailService.java:100-102 | the sign-up token is drawn the same way as a verification code |
| EmailService.PasswordAlphabetEnds | backend/book/src/main/java/com/days/book/service/EmailService.java:122 | the temporary-password alphabet has 62 characters: upper-case, then lower-case letters, then digits |
| EmailService.TemporaryPassword | backend/book/src/main/java/com/days/book/service/EmailService.java:121-129 | the temporary password has eight characters, the i-th being the alphabet character at the i-th draw, so it is all letters and digits |
| EmailService.AlphabetIsAlnum | backend/book/src/main/java/com/days/book/service/EmailService.java:122 | every character of the alphabet is a letter or a digit |
| EmailService.UsernameVerificationEmail | backend/book/src/main/java/com/days/book/service/EmailService.java:30-48 | the find-id code message is sent from the no-reply address to the given address and its text carries the code |
| EmailService.PasswordResetVerificationEmail | backend/book/src/main/java/com/days/book/service/EmailService.java:53-72 | the reset code message is sent from the no-reply address to the given address and its text carries the code |
| EmailService.FoundUsernameEmail | backend/book/src/main/java/com/days/book/service/EmailService.java:77-95 | the find-id result message is sent from the no-reply address to the given address and its text carries the username |
| EmailService.TemporaryPasswordEmail | backend/book/src/main/java/com/days/book/service/EmailService.java:134-152 | the temporary-password message is sent from the no-reply address to the given address and its text carries both the password and the username |
| EmailService.EmailVerificationMail | backend/book/src/main/java/com/days/book/service/EmailService.java:107-109 | the sign-up message is sent from the no-reply address to the given address and its text carries the token |
| EmailService.EmailVerificationIgnoresUsername | backend/book/src/main/java/com/days/book/service/EmailService.java:107-109 | the sign-up message does not depend on the username and is the find-id code message |
| Utils.DiffDays | frontend/src/utils/index.ts:22 | `later.diff(earlier, 'day')` is the number of whole days between the instants rounded toward zero: non-negative and at most the elapsed time when later, non-positive when earlier |
| Utils.OverdueDays | frontend/src/utils/index.ts:19-24 | the overdue days are never negative, positive exactly when at least a full day has passed since the due instant, and then the whole days elapsed |
| Utils.OverdueFee | frontend/src/utils/index.ts:35-45 | the fee is a non-negative multiple of 100, positive exactly when the return instant (or now, if not returned) is at least a full day after the due instant, and then 100 per whole day late |
| Utils.DaysPastMidnight | frontend/src/utils/index.ts:22 | an instant k days and less than a day after midnight is k whole days after it |
| Utils.ReturnInstant | frontend/src/utils/index.ts:37-41 | a returned loan's return day becomes its local midnight, and an unreturned loan has none |
| Utils.ClientFeeMatchesServer | frontend/src/utils/index.ts:35-45 | on the server's day, the browser's fee for a loan equals the server's stored fee whenever that fee fits in a Java int |
| Utils.FirstDayLateIsFree | frontend/src/utils/index.ts:27-45 | during the first day after the due instant, a loan is already shown as overdue but its fee is still zero |
| Utils.IsEmptyIffOnlySpaces | frontend/src/utils/index.ts:58-60 | `isEmpty` holds for a present string exactly when it has nothing but whitespace |
| Utils.SkipDash | frontend/src/utils/index.ts:70 | an optional hyphen is consumed only when the input starts with one |
| Utils.PhonePatternLayouts | frontend/src/utils/index.ts:70 | the phone pattern accepts exactly the four layouts: 01 and a digit, four digits, four digits, each of the two hyphens optional |
| Utils.PhoneIgnoresWhitespace | frontend/src/utils/index.ts:69-72 | inserting whitespace anywhere does not change whether a phone number is valid |
| Utils.PhoneValidIffLayout | frontend/src/utils/index.ts:69-72 | `isValidPhone` holds exactly when the input without its whitespace has one of the four layouts |
| Utils.PhoneRejectsDoubleHyphen | frontend/src/utils/index.ts:70 | a doubled hyphen is refused |
| Utils.PhoneRejectsLandline | frontend/src/utils/index.ts:70 | a number not starting with 01 is refused |
| Utils.NoWhitespace | frontend/src/utils/index.ts:69-72 | for digits and hyphens the pattern alone decides |
| Utils.IsbnIgnoresSeparators | frontend/src/utils/index.ts:75-78 | inserting a hyphen or whitespace anywhere does not change whether an ISBN is valid |
| Utils.IsbnIsOnlyALength | frontend/src/utils/index.ts:75-78 | without separators an ISBN is valid exactly when it has ten or thirteen characters |
| Utils.IsbnHasNoChecksum | frontend/src/utils/index.ts:75-78 | a ten-digit string with a wrong check digit is accepted |
| Utils.IsbnAcceptsLetters | frontend/src/utils/index.ts:75-78 | ten letters are accepted as an ISBN |
| Utils.StatusMessage | frontend/src/utils/index.ts:93-108 | every status has a non-empty message |
| Utils.StatusMessagesTellStatusesApart | frontend/src/utils/index.ts:93-108 | the six listed statuses have six different messages, and any other status is written into its message |
| Utils.ErrorMessage | frontend/src/utils/index.ts:81-117 | a string body is the message; otherwise a JSON body's non-empty message; otherwise the status message; without a response, the error's own non-empty message, else the unknown-error text |
| Utils.ErrorMessageFallsBackToStatus | frontend/src/utils/index.ts:81-117 | the message is empty only for an empty string body, and a body without a usable message gives the status message |
| Utils.KeysOfCons | frontend/src/utils/index.ts:129-142 | the keys of a list are the first item's key plus the rest's keys |
| Utils.DedupFromSubsequence | frontend/src/utils/index.ts:133-141 | filtering against a seen set keeps a subsequence of the input |
| Utils.DedupFromKeys | frontend/src/utils/index.ts:133-141 | filtering against a seen set keeps each unseen key exactly once |
| Utils.DedupFromFirst | frontend/src/utils/index.ts:133-141 | each item kept is the first item of its key not already seen |
| Utils.DedupKeepsFirstOfEachKey | frontend/src/utils/index.ts:129-142 | `removeDuplicates` keeps, in input order, the first item of each key and nothing else: every key survives, and no two kept items share a key |
| Utils.RemoveDuplicates | frontend/src/utils/index.ts:133-141 | the loop with its seen set computes exactly that first-of-each-key list |
| Utils.RemoveDuplicateValues | frontend/src/utils/index.ts:130-132 | without a key the items themselves are the keys |
| Session.GetItem | frontend/src/services/authService.ts:126-128 | a stored key gives its value and a missing key gives null |
| Session.WithAuthorization | frontend/src/services/api.ts:14-21 | with a non-empty stored token the request carries `Bearer` and the token; without one the headers pass unchanged; no other header is touched |
| Session.StoreLogin | frontend/src/services/authService.ts:54-64 | after a login the token, username and role from the server are stored and every other key keeps its value |
| Session.ClearSession | frontend/src/services/authService.ts:67-71 | logging out removes exactly the token, username and role keys |
| Session.CurrentUserOf | frontend/src/services/authService.ts:125-135 | the current user is authenticated exactly when a non-empty token is stored, and its username and role are the stored ones |
| Session.LoginThenCurrentUser | frontend/src/services/authService.ts:54-64 | after a login the current user has the server's username and role, and is authenticated unless the token was empty |
| Session.LogoutThenAnonymous | frontend/src/services/authService.ts:67-71 | after a logout nobody is signed in, requests carry no token, and logging out again changes nothing |
| Session.AuthorizedIffAuthenticated | frontend/src/services/api.ts:14-21 | a request carries the bearer header exactly when `getCurrentUser` reports a signed-in user |
| Session.Browser.constructor | frontend/src/services/api.ts:14-41 | a browser starts with the given storage and location |
| Session.IsUnauthorized | frontend/src/services/api.ts:33 | only a rejected call whose response carries status 401 counts as unauthorised; a fulfilled call never does |
| Session.Browser.InterceptRequest | frontend/src/services/api.ts:14-21 | the request interceptor sets the headers `WithAuthorization` describes |
| Session.Browser.InterceptResponse | frontend/src/services/api.ts:28-41 | every outcome is passed on unchanged; a 401 first clears the session and moves to `/login`, and nothing else changes the storage or location |
| Session.Browser.Login | frontend/src/services/authService.ts:54-64 | the login returns the server's answer and stores it as `StoreLogin` describes |
| Session.Browser.Logout | frontend/src/services/authService.ts:67-71 | the logout clears the session and stays on the page |
| MainLayout.SideMenuKeepsRoleItemsInOrder | frontend/src/components/layout/MainLayout.tsx:35-63 | the side menu holds exactly the entries listing the role, in their declared order |
| MainLayout.SideMenu | frontend/src/components/layout/MainLayout.tsx:63 | every entry of the side menu lists the signed-in role, the menu is no longer than the full list, and without a role it is empty |
| MainLayout.SideMenuByRole | frontend/src/components/layout/MainLayout.tsx:35-63 | an administrator sees all four entries, a user only the dashboard, and any other or missing role nothing |
| MainLayout.UserMenu | frontend/src/components/layout/MainLayout.tsx:66-102 | the user menu starts with profile and settings and ends with a divider and logout; withdrawal is offered exactly to the USER role |
| MainLayout.GetUserMenuItems | frontend/src/components/layout/MainLayout.tsx:66-102 | pushing onto the base list builds exactly that menu |
| MainLayout.UserMenuClick | frontend/src/components/layout/MainLayout.tsx:110-129 | logout calls the context's logout, shows a notice and goes to `/login`; profile and settings navigate to their pages; only logout logs out, and an unknown key does nothing |
| MainLayout.EveryUserMenuItemIsHandled | frontend/src/components/layout/MainLayout.tsx:66-129 | every item the user menu offers has a handler, and withdrawal only shows a notice |
| MainLayout.Render | frontend/src/components/layout/MainLayout.tsx:28-63 | the layout draws nothing without an auth context, and otherwise the menus for the context's role |
| RegisterPage.Suggestions | frontend/src/pages/Register/index.tsx:62-86 | one hint per missed criterion, in checking order |
| RegisterPage.Check | frontend/src/pages/Register/index.tsx:59-87 | each check adds 20 exactly when its criterion holds and pushes its hint otherwise; the five calls pass at least eight characters, an upper-case letter, a lower-case letter, a digit and a character that is none of these, with their hints |
| RegisterPage.ProgressScore | frontend/src/pages/Register/index.tsx:59-87 | after the first k checks the score is 20 for each of those criteria met |
| RegisterPage.ProgressHints | frontend/src/pages/Register/index.tsx:59-87 | after the first k checks the hints are those of the criteria missed so far, in checking order |
| RegisterPage.CheckPasswordStrength | frontend/src/pages/Register/index.tsx:55-90 | the score is 20 for each criterion met, and the hints are those of the criteria missed, in checking order |
| RegisterPage.CriteriaPartition | frontend/src/pages/Register/index.tsx:55-90 | every criterion is either met or missed, never both |
| RegisterPage.StrengthScale | frontend/src/pages/Register/index.tsx:55-90 | the score is a multiple of 20 from 0 to 100, there is one hint per missing 20 points, and the score is full exactly when no hint is left |
| RegisterPage.ColourAndLabelAgree | frontend/src/pages/Register/index.tsx:98-108 | colour and label change at the same thresholds; a password reads strong with four or five criteria met and weak with at most one |
| RegisterPage.StrengthColor | frontend/src/pages/Register/index.tsx:98-102 | the colour is red exactly below 40 and green exactly from 80 on |
| RegisterPage.StrengthText | frontend/src/pages/Register/index.tsx:104-108 | the label is "weak" exactly below 40 and "strong" exactly from 80 on |
| RegisterPage.ConfirmWithRequired | frontend/src/pages/Register/index.tsx:377-386 | with the field's required rule, the confirmation accepts exactly the password typed above, when that is non-empty |
| RegisterPage.UsernameRulesMeaning | frontend/src/pages/Register/index.tsx:266-271 | the username rules accept exactly 3 to 20 letters, digits and underscores |
| RegisterPage.ToBody | frontend/src/pages/Register/index.tsx:114 | the posted body carries every field of the form except the confirmation |
| RegisterPage.BodyIgnoresConfirmation | frontend/src/pages/Register/index.tsx:114 | forms differing only in the confirmation post the same body |
| EmailVerificationPage.Sanitize | frontend/src/pages/EmailVerification/index.tsx:34-38 | the code field holds digits only, at most six |
| EmailVerificationPage.SanitizeKeepsLeadingDigits | frontend/src/pages/EmailVerification/index.tsx:36 | the field keeps the first six digits typed, in order: a prefix of the input's digits, as long as there are digits up to six |
| EmailVerificationPage.SanitizeKeepsCodes | frontend/src/pages/EmailVerification/index.tsx:36 | a code of at most six digits passes unchanged |
| EmailVerificationPage.SanitizeIdempotent | frontend/src/pages/EmailVerification/index.tsx:36 | cleaning a cleaned value changes nothing |
| EmailVerificationPage.SanitizeIgnoresNonDigits | frontend/src/pages/EmailVerification/index.tsx:36 | non-digits typed after the code change nothing |
| EmailVerificationPage.RemoveDropsAll | frontend/src/pages/EmailVerification/index.tsx:36 | a string without digits is removed entirely by the cleaning |
| EmailVerificationPage.VerifyNotice | frontend/src/pages/EmailVerification/index.tsx:66-82 | a verify attempt shows success exactly when the server accepted it, and the server's message when it refused with one |
| EmailVerificationPage.ResendNotice | frontend/src/pages/EmailVerification/index.tsx:110-119 | a resend shows success exactly when the server accepted it |
| EmailVerificationPage.Tick | frontend/src/pages/EmailVerification/index.tsx:26-31 | each second the countdown drops by one until it stops at zero |
| EmailVerificationPage.AfterTicksValue | frontend/src/pages/EmailVerification/index.tsx:26-31 | after some seconds the countdown reads its start minus those seconds, never less than zero |
| EmailVerificationPage.ResendBlocksSixtySeconds | frontend/src/pages/EmailVerification/index.tsx:94-97 | after a successful resend the next resend is refused for fifty-nine ticks and allowed after sixty |
| EmailVerificationPage.Page.constructor | frontend/src/pages/EmailVerification/index.tsx:15-23 | the page starts with an empty code, no countdown, not verified, and the e-mail from the query string or empty |
| EmailVerificationPage.Page.CodeChange | frontend/src/pages/EmailVerification/index.tsx:34-38 | typing stores the cleaned code and leaves the rest of the state alone |
| EmailVerificationPage.Page.Verify | frontend/src/pages/EmailVerification/index.tsx:41-85 | a request is sent exactly when the code has six characters and the e-mail is known, carrying both; otherwise an error notice; the page becomes verified only when the server accepts |
| EmailVerificationPage.Page.Resend | frontend/src/pages/EmailVerification/index.tsx:88-122 | a resend is sent exactly when the e-mail is known and no countdown runs; a running countdown shows a warning; the countdown restarts at sixty only on success |
| EmailVerificationPage.Page.TickOnce | frontend/src/pages/EmailVerification/index.tsx:26-31 | the countdown effect moves the countdown by one tick and changes nothing else |
| ClientTypes.MemberStatusName | backend/book/src/main/java/com/days/book/entity/Member.java:70-73 | a member status is written as its constant's name, and "ACTIVE" names only the active status |
| ClientTypes.LoanStatusName | backend/book/src/main/java/com/days/book/entity/Loan.java:83-87 | a loan status is written as its constant's name; "ACTIVE" and "RETURNED" each name one status |
| ClientTypes.StatusNamesDistinct | backend/book/src/main/java/com/days/book/entity/Loan.java:83-87 | different statuses have different names, so the pages tell every status apart |
| ClientTypes.IncludesIgnoringCaseIgnoresCase | frontend/src/pages/Members/index.tsx:168-173 | the case of the typed text and of the searched text does not change a case-ignoring match |
| LoansPage.FeePreview | frontend/src/pages/Loans/index.tsx:181-190 | the page's fee preview is a non-negative multiple of 100, and zero when the book comes back (or, unreturned, is looked at) no later than its due instant |
| LoansPage.FeePreviewMatchesHelper | frontend/src/pages/Loans/index.tsx:181-190 | the page's own fee preview charges exactly what the shared `calculateOverdueFee` helper charges, for every due date, return date and clock reading |
| LoansPage.FeePreviewMatchesServer | frontend/src/pages/Loans/index.tsx:181-190 | for a return dated on a backend day, the preview equals the fee the server books for the loan, whenever that fee fits in a Java int |
| LoansPage.ReturnNotice | frontend/src/pages/Loans/index.tsx:259-263 | the return notice names the fee, in won, exactly when there is one |
| LoansPage.MissingLastCharacter | frontend/src/pages/Loans/index.tsx:259-263 | a text lacking the last character of a phrase does not contain the phrase |
| LoansPage.NewLoanForm | frontend/src/pages/Loans/index.tsx:150-159 | a new loan form is cleared, dated now and due fourteen days later |
| LoansPage.DefaultDueDateIsFeeFree | frontend/src/pages/Loans/index.tsx:150-159 | a book returned by the form's default due date owes nothing in the preview |
| LoansPage.CheckNewLoan | frontend/src/pages/Loans/index.tsx:192-225 | a loan request goes out exactly when both the book and the member are in the loaded lists, the book has a copy on the shelf and the member is active, carrying the form's ids and dates; a missing book or member is refused as not found |
| LoansPage.PageNeverBlocksAnEligibleLoan | frontend/src/pages/Loans/index.tsx:206-216 | every loan the server's eligibility check would grant passes the page's two checks, when the page's rows reflect the server's |
| LoansPage.OfferedBooks | frontend/src/pages/Loans/index.tsx:517 | the book select offers exactly the loaded books with a copy on the shelf |
| LoansPage.OfferedMembers | frontend/src/pages/Loans/index.tsx:537 | the member select offers exactly the loaded active members |
| LoansPage.FindUniqueBook | frontend/src/pages/Loans/index.tsx:198 | with unique ids, looking up a loaded book's id finds that book |
| LoansPage.FindUniqueMember | frontend/src/pages/Loans/index.tsx:199 | with unique ids, looking up a loaded member's id finds that member |
| LoansPage.OfferedChoicesPass | frontend/src/pages/Loans/index.tsx:192-225 | any book and member the selects offer pass the page's checks, so the request goes out |
| LoansPage.IsOverdueMatchesHelper | frontend/src/pages/Loans/index.tsx:305-308 | the page's own `isOverdue` agrees with the shared helper whenever a loan is returned exactly when it has a return date |
| LoansPage.OverdueNote | frontend/src/pages/Loans/index.tsx:364-372 | the overdue note shows exactly for active loans past their due instant, with a non-negative number of days |
| LoansPage.DueDayShowsZeroDaysOverdue | frontend/src/pages/Loans/index.tsx:364-372 | during the first day after the due instant an active loan is marked overdue by zero days and its fee preview is zero |
| LoansPage.StatusTagsCoverServerStatuses | frontend/src/pages/Loans/index.tsx:276-294 | every status the server sends gets its own colour and label, and an unknown status is shown raw in the default colour |
| LoansPage.StatusColor | frontend/src/pages/Loans/index.tsx:276-284 | the tag colour is the default one exactly when the status is none of ACTIVE, RETURNED, OVERDUE and LOST |
| LoansPage.StatusText | frontend/src/pages/Loans/index.tsx:286-294 | the status is shown raw exactly when it is none of ACTIVE, RETURNED, OVERDUE and LOST |
| LoansPage.ReturnButtonMatchesServer | frontend/src/pages/Loans/index.tsx:419-428 | the page offers the return button only for loans the server would take back; overdue loans, which the server also takes back, get no button |
| LoansPage.Search | frontend/src/pages/Loans/index.tsx:131-148 | a blank search box reloads every loan, and anything else is sent to the server untrimmed |
| LoansPage.Page.constructor | frontend/src/pages/Loans/index.tsx:131-179 | the page starts with no loans |
| LoansPage.Page.Delete | frontend/src/pages/Loans/index.tsx:170-179 | a delete the server confirmed drops exactly the loans with that id, keeping the rest in order; a failed delete changes nothing |
| LoansPage.DeleteRemovesExactlyThatId | frontend/src/pages/Loans/index.tsx:174 | the filter keeps, in order, exactly the loans with another id |
| MembersPage.SearchReadsOnlySamples | frontend/src/pages/Members/index.tsx:154-180 | a search shows sample members only, in sample order: all of them for a blank box, otherwise exactly those matching on name or e-mail ignoring case, or on phone or member number as typed; members added or edited on the page are never found |
| MembersPage.SearchIgnoresCaseOfNameAndEmail | frontend/src/pages/Members/index.tsx:168-170 | the case of the typed text does not change a name or e-mail match |
| MembersPage.ParseIntOfDigits | frontend/src/pages/Members/index.tsx:216 | `parseInt` reads a non-empty run of digits as its decimal value |
| MembersPage.LeadingDigitsOfDigits | frontend/src/pages/Members/index.tsx:216 | a string of digits is its own leading run of digits |
| MembersPage.ParseInt | frontend/src/pages/Members/index.tsx:216 | `parseInt` of an empty text, or of one starting with a character that is no digit, sign or white space, is `NaN`; a text starting with a digit reads as a non-negative number |
| MembersPage.LastThree | frontend/src/pages/Members/index.tsx:216 | `slice(-3)` gives the last three characters, or the whole of a shorter text |
| MembersPage.MaxReadableIsMaximum | frontend/src/pages/Members/index.tsx:215-218 | the `reduce` from 0 yields a bound on every number read, skipping `NaN`, and equals one of them unless it is 0 |
| MembersPage.SuffixNumbers | frontend/src/pages/Members/index.tsx:215-218 | each member contributes the number read from the last three characters of its member number |
| MembersPage.HighestSuffix | frontend/src/pages/Members/index.tsx:215-218 | the highest suffix is non-negative and at least every suffix read |
| MembersPage.FirstNumberOfTheList | frontend/src/pages/Members/index.tsx:213-220 | on an empty page the first member number of a year ends in 001 |
| MembersPage.GenerateMemberNumber | frontend/src/pages/Members/index.tsx:213-220 | a generated member number is "M", then the year, then at least three more characters |
| MembersPage.GeneratedNumberIsNew | frontend/src/pages/Members/index.tsx:213-220 | a generated member number differs from every member number on the page, while the highest suffix is below 999 |
| MembersPage.PhoneRuleIsValidPhone | frontend/src/pages/Members/index.tsx:471 | every phone number the form accepts also passes the shared `isValidPhone` check |
| MembersPage.Merge | frontend/src/pages/Members/index.tsx:231-235 | an edit replaces name, e-mail, phone and address with the form's, takes the form's status when it has one, and keeps id, member number and registration date |
| MembersPage.StatusOrActive | frontend/src/pages/Members/index.tsx:247 | a new member's status is the form's when given and non-empty, and ACTIVE otherwise |
| MembersPage.NewMember | frontend/src/pages/Members/index.tsx:243-251 | a new member has an id above every id on the page, the generated member number, the status rule's status, today's registration date and the form's fields |
| MembersPage.StatusTagsForServerStatuses | frontend/src/pages/Members/index.tsx:267-283 | active and suspended members get their labels; a withdrawn member, unknown to the page, is shown raw in the neutral colour |
| MembersPage.StatusColor | frontend/src/pages/Members/index.tsx:267-274 | the tag colour is the default one exactly when the status is none of ACTIVE, SUSPENDED and INACTIVE |
| MembersPage.StatusText | frontend/src/pages/Members/index.tsx:276-283 | the status is shown raw exactly when it is none of ACTIVE, SUSPENDED and INACTIVE |
| MembersPage.Page.constructor | frontend/src/pages/Members/index.tsx:61 | the page starts with no members |
| MembersPage.Page.Load | frontend/src/pages/Members/index.tsx:136-152 | loading shows the sample list, not the server's |
| MembersPage.Page.Search | frontend/src/pages/Members/index.tsx:154-180 | the list becomes the search result over the samples |
| MembersPage.Page.Delete | frontend/src/pages/Members/index.tsx:200-211 | deleting keeps, in order, exactly the members with another id |
| MembersPage.Page.Edit | frontend/src/pages/Members/index.tsx:226-236 | editing merges the form into the members with that id |
| MembersPage.Page.Add | frontend/src/pages/Members/index.tsx:238-252 | adding appends one new member and keeps the rest |
| MembersPage.EditChangesOnlyThatMember | frontend/src/pages/Members/index.tsx:231-235 | an edit keeps the list's length, leaves every other member as it was and merges the form into the member with that id |
| MembersPage.AddAppendsAFreshMember | frontend/src/pages/Members/index.tsx:243-252 | the appended member's id and member number are new to the page, while the highest suffix is below 999 |
| BooksPage.SearchReadsOnlySamples | frontend/src/pages/Books/index.tsx:157-182 | a non-blank search shows exactly the sample books matching on title or author ignoring case, or on ISBN as typed, in sample order; the books loaded from the server are never searched |
| BooksPage.SearchIgnoresCaseOfTitleAndAuthor | frontend/src/pages/Books/index.tsx:172-173 | the case of the typed text does not change a title or author match |
| BooksPage.IsbnRuleIgnoresLength | frontend/src/pages/Books/index.tsx:428-431 | within the form's ISBN rule, the shared `isValidISBN` check comes down to ten or thirteen digits, and a lone hyphen passes the form but not that check |
| BooksPage.Merge | frontend/src/pages/Books/index.tsx:225-229 | an edit replaces title, author, ISBN, copies owned, category and publication date with the form's, and keeps the id and the copies on the shelf |
| BooksPage.EditCanOverstock | frontend/src/pages/Books/index.tsx:225-229 | lowering the copies owned below the copies on the shelf leaves more books on the shelf than exist |
| BooksPage.NewBook | frontend/src/pages/Books/index.tsx:237-243 | a new book has an id above every id on the page, the form's fields, and all its copies on the shelf |
| BooksPage.NewBookIsFullyStocked | frontend/src/pages/Books/index.tsx:237-243 | a book added through a validated form has at least one copy, all on the shelf |
| BooksPage.GreenTagIffLendable | frontend/src/pages/Books/index.tsx:308-312 | the tag is green exactly when the server could lend a copy of the book, and red exactly when it could not |
| BooksPage.Page.constructor | frontend/src/pages/Books/index.tsx:63 | the page starts with no books |
| BooksPage.Page.Load | frontend/src/pages/Books/index.tsx:138-155 | loading shows the server's books |
| BooksPage.Page.Search | frontend/src/pages/Books/index.tsx:157-182 | a blank box reloads from the server, and anything else shows the matching samples |
| BooksPage.Page.Delete | frontend/src/pages/Books/index.tsx:203-214 | deleting keeps, in order, exactly the books with another id |
| BooksPage.Page.Edit | frontend/src/pages/Books/index.tsx:220-230 | editing merges the form into the books with that id |
| BooksPage.Page.Add | frontend/src/pages/Books/index.tsx:236-244 | adding appends one new book and keeps the rest |
| BooksPage.EditChangesOnlyThatBook | frontend/src/pages/Books/index.tsx:225-229 | an edit keeps the list's length, leaves every other book as it was and merges the form into the book with that id |
| LookupModals.MemberLookup.constructor | frontend/src/components/MemberLookupModal.tsx:57-69 | the member picker starts empty |
| LookupModals.MemberLookup.Load | frontend/src/components/MemberLookupModal.tsx:57-69 | loading keeps exactly the active members the server sent, in order, and shows them all |
| LookupModals.MemberLookup.Search | frontend/src/components/MemberLookupModal.tsx:71-86 | a blank box shows every loaded member; otherwise exactly the loaded members matching on name or e-mail ignoring case, or on member number or phone as typed; the loaded list is kept |
| LookupModals.MemberLookup.Select | frontend/src/components/MemberLookupModal.tsx:88-91 | a choice calls `onSelect` with the member and then `onCancel` |
| LookupModals.EveryShownMemberIsSelectable | frontend/src/components/MemberLookupModal.tsx:170 | every member the picker shows is active, so its select button is never disabled |
| LookupModals.BookLookup.constructor | frontend/src/components/BookLookupModal.tsx:57-69 | the book picker starts empty |
| LookupModals.BookLookup.Load | frontend/src/components/BookLookupModal.tsx:57-69 | loading keeps exactly the books with a copy on the shelf, in order, and shows them all |
| LookupModals.BookLookup.Search | frontend/src/components/BookLookupModal.tsx:71-86 | a blank box shows every loaded book; otherwise exactly the loaded books matching on title, author or a non-empty category ignoring case, or on ISBN as typed; the loaded list is kept |
| LookupModals.BookLookup.Select | frontend/src/components/BookLookupModal.tsx:88-91 | a choice calls `onSelect` with the book and then `onCancel` |
| LookupModals.EveryShownBookIsSelectable | frontend/src/components/BookLookupModal.tsx:149 | every book the picker shows has a copy on the shelf, so its select button is never disabled |
| Lists.FilterKeepsExactlyPassing | frontend/src/pages/Members/index.tsx:206 | `filter` keeps, in order, exactly the items that pass |
| Lists.MapWhere | frontend/src/pages/Members/index.tsx:231-235 | the mapped list has the same length, hit items replaced and every other item kept |
| Lists.Find | frontend/src/pages/Loans/index.tsx:198 | `find` gives nothing exactly when no item passes, and otherwise an item of the list that passes |
| Lists.JsMax | frontend/src/pages/Members/index.tsx:244 | `Math.max` of no arguments is minus infinity, and otherwise the largest argument |
| Lists.NextId | frontend/src/pages/Members/index.tsx:244 | the intended new id is above every id, 1 for an empty list, and otherwise one past the largest |
| Lists.NextIdOnEmptyList | frontend/src/pages/Members/index.tsx:244 | as written, an empty list gives minus infinity instead of a number; on a non-empty list the written and the intended id agree |
| Lists.NextIdAsWritten | frontend/src/pages/Members/index.tsx:244 | as written, the new id is minus infinity exactly for an empty list, and otherwise one past the largest id |
| Text.JavaTrimEmpty | backend/book/src/main/java/com/days/book/service/BookService.java:57 | a keyword is blank after `trim()` exactly when all its characters are ones `trim()` removes |
| Text.ZeroPadValue | frontend/src/pages/Members/index.tsx:219 | zero-padding keeps a digit string's value |
| Dates.YearText | backend/book/src/main/java/com/days/book/entity/Member.java:103 | a year from 0 to 9999 is written with four digits |

## Left out

- Controllers, `@PreAuthorize` role checks and the mapping of exceptions to HTTP statuses are framework routing and are not modelled; services return a typed error instead of throwing.
- Mail delivery, JWT signing and password hashing are foreign libraries: a mail is a value with the recipient and the text, the signer is the parameter `sign`, and the encoder is `enc`.
- Log output and `System.out` messages are not modelled.
- MemberService.CreateMemberStep: requires that some draw of the given trace yields a free member number (`SomeFree`), which is exactly the condition for the do-while loop to end; a run in which no draw is ever free does not end in the source, and the model has no value for it. The same requirement is on MemberService.FirstFreeDraw, MemberService.CreateMemberPreserves and MemberService.MemberService.CreateMember.
- `LoanService` calls `bookService.getBook(bookId)` (LoanService.java:38 and :137, and BookController.java:44) and `bookService.updateBook(book)` (LoanService.java:56), but BookService.java declares neither: it has only `findBookById` and `updateBook(Long, Book)`, and the latter keeps both copy counts. The model takes `getBook` to be the lookup by id that fails for an unknown book, and `updateBook(book)` to store the changed row, as JPA's dirty checking inside the transaction would do.
- BCrypt's `encode` draws a fresh salt on every call, so it is not a function. The model's encoder `enc` is deterministic, and `matches(raw, hash)` is `enc(raw) == hash`. No proof uses more than this: a password matches the hash stored for it, and a different password does not.
- `AuthService.maskEmail` (AuthService.java:326-341) only formats text for a log line, so it is not modelled.
- The fallback branch of `deleteMember` (MemberService.java:128-144) runs only when a repository call throws. Repository calls cannot fail in the model, so the branch cannot be reached.
- `createdAt`/`updatedAt` timestamps filled in by Hibernate are not part of the rows.
- AuthService.SendFindIdCodeStep: uses the intended save `AuthService.IssueCode`, not the save as written, which the NOT NULL `created_at` column refuses (see "## Findings"); the same holds for AuthService.SendResetPasswordCodeStep and the class methods that perform them.
- AuthService.IssueCodeAsWritten: the refusal of a null `createdAt` assumes the table keeps the NOT NULL constraint its `@Column(nullable = false)` declares; a hand-made schema without it would store the row with no creation time.
- Database behaviour beyond the queries the services use is not modelled. This includes SQL `LIKE` wildcards in search keywords, collation and case rules of the database, and the dashboard and statistics queries.
- The loans' foreign key to books is modelled as refusing the delete of a book that any loan still refers to (`BookService.DeleteBookStep`). `updateBookToNullByBookId` is modelled on its own and no modelled service calls it.
- JavaScript text is a sequence of Unicode characters. UTF-16 code units and case folding beyond ASCII are not modelled.
- dayjs date parsing and daylight-saving time are not modelled. A date string stands for its local midnight, and a day is always 86 400 000 ms.
- Floating-point numbers are not modelled. `parseInt` is modelled for decimal text only: a leading `0x` in a member number's last three characters would be read as hexadecimal, and the model does not do so.
- Loading flags, toasts other than the ones stated, timers, re-rendering and the order of asynchronous promises are not modelled. Each handler is one sequential step, with the server's answer as an input.
- `handleMenuClick` navigation and the layout's collapse state are not modelled.
- The Loans page's `handleReturnOk` network call is not modelled: only its fee preview and notice are.
- The front end has no route guard (App.tsx) and imports an `AuthContext` that App.tsx does not define. The model adds no guard; `MainLayout.Render` takes the context as an optional input.
- Login, Settings, Profile, Dashboard, FindId and FindPassword pages, the thin HTTP service wrappers, the DTO and type declarations, `DataInitializer` and the Playwright test hold no rules of their own and are not modelled.
- `LoanRepository` queries that no modelled service uses (dashboard counts and the find-by variants) are not modelled.
- MembersPage.GeneratedNumberIsNew: proved only while the highest three-digit suffix on the page is below 999. Once the page holds suffix 999, the next number ends in `1000`; its last three characters read as 0, so the number after that ends in `1000` again.
- MembersPage.AddAppendsAFreshMember: the same bound on the highest suffix, for the same reason.
- Utils.ClientFeeMatchesServer: states agreement only while the server's fee fits in a Java `int`; past that the server's fee wraps (`LoanEntity.FeeWrapsPastIntRange`) and the browser's does not.
- LoansPage.FeePreviewMatchesServer: the same bound as `Utils.ClientFeeMatchesServer`.

## Findings

| source | as written | input that shows it | evidently intended | confidence | as-written member | corrected member |
|---|---|---|---|---|---|---|
| backend/book/src/main/java/com/days/book/service/LoanService.java:64-76 | `returnBook` refuses only a loan whose status is RETURNED, but `Loan.returnBook` leaves a late loan OVERDUE, so it can be returned again | a book with 2 copies and two loans due on day 14; return loan 1 on day 20 (it stays OVERDUE), then return it again on day 21 | a loan that already carries a return date is refused, so each copy comes back once | not executed | LoanService.DoubleReturnBreaksStock | LoanService.ReturnBookStep |
| backend/book/src/main/java/com/days/book/repository/VerificationCodeRepository.java:32-39 | `findLatestValidCode` returns an `Optional` although several rows qualify, so Spring Data fails with a non-unique result instead of picking the newest | two FIND_ID codes for one e-mail issued a minute apart, queried while both are valid | the newest qualifying code (`ORDER BY createdAt DESC`, first row) | not executed | CodeRepository.TwoRecentCodesBreakLatestQuery | CodeRepository.FindLatestValidCode |
| backend/book/src/main/java/com/days/book/service/AuthService.java:121-129 | the orphaned account is deleted and then an exception is thrown inside the class-wide `@Transactional`, which rolls the delete back | a verified non-admin account whose e-mail has no member row logs in with the right password | the orphaned account is removed, so the next attempt fails at the lookup | not executed | AuthService.OrphanLoginRollsBack | AuthService.LoginStep |
| backend/book/src/main/java/com/days/book/service/AuthService.java:171-181 | the code row is built with Lombok's `@Builder`, which skips `createdAt`'s initialiser because it has no `@Builder.Default` (entity/VerificationCode.java:41-42), and neither builder chain sets the field; the NOT NULL `created_at` column refuses the save, so no find-id or reset-password code is ever issued (the same builder is at AuthService.java:229-238) | `sendFindIdCode` for any registered e-mail | the code is saved with its issue instant as `createdAt` | not executed | AuthService.BuiltCodeIsNeverSaved | AuthService.IssueCode |
| frontend/src/pages/Members/index.tsx:244 | `Math.max(...members.map(m => m.id)) + 1` on an empty page is `-Infinity` (the same expression is at frontend/src/pages/Books/index.tsx:238) | adding the first member after every member was deleted | id 1 on an empty page, one past the largest id otherwise | not executed | Lists.NextIdOnEmptyList | Lists.NextId |
