# Bookstore catalog: book-file validators and the review table

This project models the two parts of the bookstore service that carry
logic of their own, and proves what they promise.

**Book-file validators** (`core/validators.py`). An uploaded book file is
checked twice. The extension check takes the suffix of the file name as
`os.path.splitext` computes it, lower-cases it, and requires it to be in
the allow-list `BOOK_FILE_VALID_EXTENSIONS`. The size check requires the
size in bytes to be at most `BOOK_FILE_SIZE_LIMIT_MB` times 1024 * 1024.
Each check returns normally or raises a `ValidationError` with a fixed
message. Both settings are parameters of the model. Migration 0002
attaches the two validators to `Book.file`; on a field declared that way,
Django runs them only when a file is present, runs both, and reports every
error raised.

- `Strings` holds the Python string built-ins the checks use: `str.lower`, `str.rfind`, `str.join` and `str(int)`.
- `Paths` holds POSIX `os.path.splitext`. The extension starts at the last '.' of the final path component. That dot counts only when some character other than '.' comes before it in the component. So ".pdf" and "..pdf" have no extension, and "x.tar.gz" has ".gz".
- `Validators` holds the two checks and their combination on `Book.file`.

The extension error message keeps the twelve spaces that the source's
backslash line continuation puts inside its f-string
("...Only the following            extensions are allowed: ...").

**Review table** (`core/models.py`). A review belongs to one user and one
book. The pair (user, book) is unique (`unique_together`). Deleting a book
or a user deletes their reviews in cascade. `Book.reviews` is the list of
reviews whose book is that book.

- The `Models` module states the table as functions over a value `Db`: users, books, reviews, and the id counters.
- Insert refuses an unknown user, an unknown book and a duplicate pair. A refused insert leaves the table unchanged.
- `Consistent(db)` is the table's invariant: pairs are unique, foreign keys resolve, and ids are below their counters.
- `Models.ReviewTable` is a class holding the same state in fields. Its methods change the fields in place. Each method's postcondition equates the new state with the specifying function applied to the old state.

Where the tests, the admin, the migrations and the model code disagree,
the model follows the model code, with one exception:
- core/models.py:11 declares `file` with no validators, while migration 0002 (core/migrations/0002_alter_book_options_alter_book_file.py:25-28) attaches both. `Validators.RunFileValidators` follows the migration, since the validators are the point of the field there.
- The tests expect a rating of 6 to be refused (core/tests/test_book.py:88-100), but `rating` is a bare integer field with no validator (core/models.py:26), so ratings are unbounded here.
- The admin and the tests name a `publish_date` (core/admin.py:11, core/tests/test_book.py:24), but `Book` has no such field (core/models.py:7-12).
- The tests call a `books-add-review` action (core/tests/test_book.py:70), but core/views.py defines none. Only the store-level uniqueness is modelled.

## Model

| member | source | states |
|---|---|---|
| `Strings.Lower` | core/validators.py:7 | `.lower()` keeps the length and lower-cases each character in place |
| `Strings.LowerIsLowerAndIdempotent` | core/validators.py:7 | a lower-cased string has no upper-case letter, and lower-casing it again changes nothing |
| `Strings.LastIndexOf` | core/validators.py:7 | the `rfind` inside `splitext`: the index of the last occurrence, or -1 when there is none |
| `Strings.LastIndexOfLower` | core/validators.py:7 | lower-casing does not move the last '.' or the last '/' |
| `Strings.Join` | core/validators.py:12 | `", ".join(...)`: empty for no items, the item itself for one item; otherwise the first item and separator come first, and the length is the total item length plus one separator per gap |
| `Strings.IntToDecimalRoundTrip` | core/validators.py:20 | the decimal text of the MB limit, as printed in the f-string, reads back as that integer |
| `Paths.SplitExt` | core/validators.py:7 | root + extension is the whole name; the extension is empty or starts with '.' and then holds no '.' and no '/' |
| `Paths.SplitExtCharacterization` | core/validators.py:7 | the extension is non-empty iff some '.' has no '.' or '/' after it and has a non-dot character before it in the same component; the extension then runs from that dot to the end |
| `Paths.ExtensionDotIsLastDot` | core/validators.py:7 | such an extension dot is the last '.' of the name, lies after the last '/', and is what `splitext` splits at |
| `Paths.ExtOfLower` | core/validators.py:7 | the extension of the lower-cased name is the lower-cased extension |
| `Paths.NoDotInLastComponent` | core/validators.py:7 | a final component with no '.' has an empty extension, whatever dots the directories contain |
| `Paths.LastSuffixExamples` | core/validators.py:7 | "book.pdf" has ".pdf"; "x.tar.gz" has ".gz", the last suffix only; "BOOK.PDF" has ".PDF", with the case kept until the check lowers it |
| `Paths.NoSuffixExamples` | core/validators.py:7 | ".pdf" (a leading dot only) and "README" (no dot) have the empty extension |
| `Paths.LeadingDotsExample` | core/validators.py:7 | "..pdf" has the empty extension: all leading dots are skipped |
| `Paths.DirectoryDotExample` | core/validators.py:7 | "v1.2/README" has the empty extension: a dot in a directory does not count |
| `Validators.ValidateFileExtension` | core/validators.py:6-13 | passes iff the lower-cased extension is in the allow-list; otherwise raises the "Unsupported file extension" error that lists the allow-list joined by ", " |
| `Validators.ValidateFileSize` | core/validators.py:16-20 | passes iff size <= limit * 1024 * 1024; otherwise raises "Max file size is <limit>MB" |
| `Validators.ExtensionAcceptedIff` | core/validators.py:6-9 | without `splitext`: accepted iff the lower-cased text from the extension dot is allowed, or, when there is no extension dot, iff "" is allowed |
| `Validators.ExtensionCheckIgnoresCase` | core/validators.py:7 | two names that are equal once lower-cased get the same verdict and the same error |
| `Validators.UpperCaseEntriesNeverMatch` | core/validators.py:7-9 | the allow-list is not lower-cased, so a list whose every entry has an upper-case letter rejects every file |
| `Validators.SizeCheckMonotone` | core/validators.py:19 | if a size is rejected, every larger size is rejected |
| `Validators.SizeLimitIsInclusive` | core/validators.py:18-19 | a file of exactly the limit passes; one byte more fails |
| `Validators.SizeMessageNamesLimit` | core/validators.py:20 | the size error reads "Max file size is ", then the limit's decimal text, which parses back to the limit, then "MB" |
| `Validators.RunFileValidators` | core/migrations/0002_alter_book_options_alter_book_file.py:18-29 | no errors for an absent file; otherwise the extension error is reported iff the extension check fails, the size error iff the size check fails, nothing else is reported, each at most once, and when both fail the extension error comes first, as the field lists the validators |
| `Validators.BookFileValidIff` | core/migrations/0002_alter_book_options_alter_book_file.py:25-28 | a book file is valid iff it is absent or both the extension and the size are accepted |
| `Validators.ValidatorsAreIndependent` | core/validators.py:6-20 | whether the extension error appears depends only on the name; whether the size error appears depends only on the size |
| `Models.BookStringSurvives` | core/models.py:14-15 | a book's string form is its title, and a book still stored after any run of operations prints as it did before |
| `Models.ReviewToString` | core/models.py:29-30 | a review's string form is "Review of " + the book's title + " by " + the user's username, read through the foreign keys |
| `Models.ReviewStringSurvives` | core/models.py:23-30 | a review still stored after any run of operations still resolves its book and user, and prints as it did before |
| `Models.ReviewsOf` | core/models.py:24 | `Book.reviews` holds exactly the stored reviews whose book is that book, each as many times as it is stored, so unique pairs stay unique |
| `Models.CreateUser` | core/models.py:23 | a new user gets the next id, which is not in use, and the user counter moves past it; books and reviews are unchanged |
| `Models.CreateBook` | core/models.py:7-12 | a new book gets the next id, which is not in use, and the book counter moves past it; users and reviews are unchanged |
| `Models.InsertReview` | core/models.py:22-35 | accepted iff the user and the book exist and the pair has no review yet; a refusal changes nothing; a duplicate is refused as such; an accepted insert appends exactly the new review |
| `Models.DeleteBook` | core/models.py:24 | the book is gone, users and id counters are kept, and the remaining reviews are exactly those of other books |
| `Models.DeleteUser` | core/models.py:23 | the user is gone, books and id counters are kept, and the remaining reviews are exactly those by other users |
| `Models.CreateUserKeepsConsistent` | core/models.py:23 | adding a user keeps the table consistent |
| `Models.CreateBookKeepsConsistent` | core/models.py:7-12 | adding a book keeps the table consistent |
| `Models.InsertKeepsConsistent` | core/models.py:35 | an insert keeps (user, book) unique and foreign keys resolving |
| `Models.DeleteBookKeepsConsistent` | core/models.py:24 | the book cascade leaves no review pointing at a missing book, and pairs stay unique |
| `Models.DeleteUserKeepsConsistent` | core/models.py:23 | the user cascade leaves no review pointing at a missing user, and pairs stay unique |
| `Models.DuplicateReviewRejected` | core/models.py:35 | a second review for an existing (user, book) pair is refused as a duplicate, and the table is unchanged |
| `Models.InsertNewPairAddsOne` | core/models.py:22-35 | a review for a new pair is appended to its book's reviews, so that count grows by one, the table grows by one, and every other book's reviews are unchanged |
| `Models.DeleteBookCascades` | core/models.py:24 | after deleting a book, it has no reviews, and every other book's reviews are unchanged, in the same order |
| `Models.DeleteUserCascades` | core/models.py:23 | after deleting a user, each book's reviews are its old reviews minus that user's, in the same order; every other user's review stays |
| `Models.ApplyKeepsConsistent` | core/models.py:22-35 | any single operation, accepted or refused, keeps the table consistent |
| `Models.ApplyKeepsRows` | core/models.py:7-35 | no operation edits a stored user or book, and the id counters never go down |
| `Models.FreedBookIdStaysFree` | core/models.py:7 | a book id that was handed out and deleted is never reused by any later operations |
| `Models.FreedUserIdStaysFree` | core/models.py:23 | a user id that was handed out and deleted is never reused by any later operations |
| `Models.RunKeepsRows` | core/models.py:7-35 | a user or book present before and after any run of operations is the same row |
| `Models.RunKeepsConsistent` | core/models.py:35 | after any sequence of inserts, deletes and creations, no two stored reviews share a (user, book) pair |
| `Models.ReviewTable.constructor` | core/models.py:22-35 | the new table is empty and consistent |
| `Models.ReviewTable.AddUser` | core/models.py:23 | the fields change exactly as `CreateUser` specifies, and the table stays valid |
| `Models.ReviewTable.AddBook` | core/models.py:7-12 | the fields change exactly as `CreateBook` specifies, and the table stays valid |
| `Models.ReviewTable.AddReview` | core/models.py:22-35 | the fields and the outcome are exactly as `InsertReview` specifies; a refused insert changes no field |
| `Models.ReviewTable.RemoveBook` | core/models.py:24 | the fields change exactly as `DeleteBook` specifies, and the table stays valid |
| `Models.ReviewTable.RemoveUser` | core/models.py:23 | the fields change exactly as `DeleteUser` specifies, and the table stays valid |

## Left out

- Views, serializers, URL routing and token login (core/views.py, core/serializers.py, bookstore/urls.py): these are generic framework views and library code.
- The "add review" endpoint the tests call: the views define no such action. The model has only the store-level insert.
- A 0-5 rating bound: the model declares none, so `rating` is any integer. The 32-bit range of the database column is not modelled either.
- `publish_date`, which the admin and tests name but `Book` lacks; the `verbose_name` metadata; admin registration.
- File storage (`upload_to`), the `created_at` timestamps and the settings lookups. These are I/O, the clock and configuration. The allow-list and the MB limit are parameters.
- Users beyond a username: email, password hashing and the framework's unique-username rule are not modelled.
- Review primary keys: a review is identified by its (user, book) pair. Stored order stands in for the database's unspecified row order.
- Insert error order: when several integrity rules fail at once, the model reports an unknown user first, then an unknown book, then a duplicate. A real database raises one `IntegrityError`, whichever check it runs first.
- Transactions and concurrent requests: each operation is modelled as atomic.
- `Strings.Lower`: only ASCII A-Z are lower-cased. Python's `str.lower` also maps other Unicode letters.
- `Paths.SplitExt`: only POSIX paths, with '/' as the separator. Windows `ntpath` with '\\' and drive letters is not modelled.
- `Strings.Join`: the contract states the empty and one-item cases, the first item and separator as a prefix, and the total length, not every position of the joined text.
- `Validators.ValidateFileSize`: the limit is an integer. A float setting, which Python would also accept, is not modelled.
