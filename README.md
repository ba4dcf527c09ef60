# Phone book: validators and the contacts table

This project models the core of a single-page contact book. The page validates a
phone number and an email address with two regular expressions. It keeps contacts in
one SQLite table, `contacts(id INTEGER PRIMARY KEY AUTOINCREMENT, name TEXT UNIQUE,
phone TEXT, email TEXT)`. Four handlers work on that table: Save, the contact list,
Update and Delete.

- `validation.dfy`, module `Validation`: `is_valid_phone` (`^\d+$`) and
  `is_valid_email` (`^[\w\.-]+@[\w\.-]+\.\w+$`) as predicates over characters.
  - The email predicate splits the text at its first `@` and the domain at its last
    dot.
  - Lemmas prove each predicate equal to the direct reading of its pattern: "some
    split of the input into the pattern's pieces exists".
  - Python's `$` also matches just before one final newline, so both validators accept
    a trailing `"\n"`. The model keeps this: under `re.match`, `^\d+$` accepts
    "123\n", so the phone rule is not "non-empty and all digits".
- `collation.dfy`, module `Collation`: the order of `ORDER BY name ASC`. SQLite's
  default BINARY collation compares UTF-8 bytes, which is the lexicographic order of
  code points. The module proves this order is a strict total order and equals the
  common-prefix definition. It also has a method that finds the least name of a set.
- `contacts.dfy`, module `Contacts`: the table as a class `ContactBook`.
  - State: a map from name (the UNIQUE column) to `(id, phone, email)`, plus the
    AUTOINCREMENT counter.
  - `Add`, `Update` and `Delete` run the handlers' guard chains in the source's order.
    Each returns one outcome: `Ok`, `MissingField`, `InvalidFormat`, `Duplicate` or
    `NotFound`.
  - `List` returns every row once, sorted by strictly ascending name.
  - The invariant `Valid()` holds in every reachable state. It says every stored row
    passed the form guards and that ids are distinct and below the counter.
- `scenarios.dfy`, module `Scenarios`: handler calls in sequence, proved from the
  handlers' contracts alone. They cover save then list, saving a name twice, deleting a
  name twice, and the round trip of one contact on a fresh store.

## Model

| member | source | states |
|---|---|---|
| `Validation.StripLineEnd` | app.py:26 | Python's `$`: what is left for the rest of a pattern is a prefix of the input, and it ends where `$` holds. That is the whole input, or the input without one final newline. |
| `Validation.IsValidPhone` | app.py:25-26 | `is_valid_phone`. It is defined by `PhoneMatchesRegex` (equal to `^\d+$` under `re.match`) and pinned by `PhoneExamples`. |
| `Validation.IsValidEmail` | app.py:28-29 | `is_valid_email`. It is defined by `EmailMatchesRegex` (equal to `^[\w\.-]+@[\w\.-]+\.\w+$` under `re.match`), `ValidEmailHasOneAt` and the `Email*` example lemmas. |
| `Validation.PhoneMatchesRegex` | app.py:25-26 | `is_valid_phone(s)` holds exactly when `^\d+$` matches under `re.match`. That means one or more digits up to the end of `s`, or up to a newline that ends `s`. |
| `Validation.PhoneExamples` | app.py:25-26 | "5551234" and "123\n" are accepted. "", "\n", "12a4", "+123", "555 1234" and "1\n\n" are rejected. |
| `Validation.EmailMatchesRegex` | app.py:28-29 | The first-`@`/last-dot reading of `is_valid_email` accepts exactly what `^[\w\.-]+@[\w\.-]+\.\w+$` matches: some split `L@D.T` exists, then the end or a final newline. |
| `Validation.RegexToLastDot` | app.py:28-29 | Any split of the input that the email pattern admits is found again by the first `@` and the last dot. |
| `Validation.LastDotSplit` | app.py:29 | A text laid out as `L@D.T` with nothing after `T`: its first `@` sits between `L` and `D`, and what follows is a well-formed domain. |
| `Validation.DomainSplit` | app.py:29 | A well-formed domain splits at its last dot into a non-empty `[\w.-]` run, a dot not in first position, and a non-empty `\w` run that reaches the end. |
| `Validation.DomainJoin` | app.py:29 | The converse: `D.T` with `D` in `[\w.-]+` and `T` in `\w+` is a well-formed domain, and its last dot is the one between `D` and `T`. |
| `Validation.ValidEmailHasOneAt` | app.py:28-29 | Every accepted address contains exactly one `@`, and not in first position. |
| `Validation.EmailAccepted` | app.py:28-29 | "bob@x.com" is accepted. |
| `Validation.EmailAcceptedLineEnd` | app.py:28-29 | "a.b-c@d-e.f.io\n" is accepted: dots and hyphens on both sides, several dots in the domain, and a final newline. |
| `Validation.EmailRejectedLocal` | app.py:28-29 | "not-an-email" (no `@`) and "@b.com" (empty local part) are rejected. |
| `Validation.EmailRejectedAfterAt` | app.py:28-29 | "a@b@c.com" (a second `@`) and "a@b" (no dot after the `@`) are rejected. |
| `Validation.EmailRejectedDot` | app.py:28-29 | "a@.com" (dot right after the `@`) and "a@b." (nothing after the last dot) are rejected. |
| `Validation.EmailRejectedTld` | app.py:28-29 | "a@b.c-d" is rejected: only word characters may follow the last dot. |
| `Collation.Less` | app.py:66 | The BINARY order of `ORDER BY name ASC`. It is defined by `LessIsPrefixLess` (the common-prefix definition) and by `LessIrreflexive`, `LessTransitive`, `LessTotal` and `LessAsymmetric` (a strict total order). |
| `Collation.LessIsPrefixLess` | app.py:66 | The recursive comparison behind `ORDER BY name ASC` says `a < b` exactly when, after the common prefix, `a` has ended and `b` has not, or `a`'s next character is smaller. |
| `Collation.LessIrreflexive` | app.py:66 | No name sorts before itself. |
| `Collation.LessTransitive` | app.py:66 | The name order is transitive. |
| `Collation.LessTotal` | app.py:66 | Of two different names, one sorts before the other, so no two distinct names tie. |
| `Collation.LessAsymmetric` | app.py:66 | Two names never sort each before the other. |
| `Collation.Least` | app.py:66 | Returns a member of a non-empty set of names that sorts before every other member. |
| `Contacts.CheckForm` | app.py:44-47 | Gives `MissingField` exactly when a field is empty. It gives `Ok` exactly when the name is non-empty and both validators accept. Otherwise it gives `InvalidFormat`. |
| `Contacts.CheckFormExamples` | app.py:44-47 | A name of spaces passes. An empty phone is `MissingField`. "12a4" and "not-an-email" are `InvalidFormat` before any statement runs. |
| `Contacts.ContactBook.constructor` | app.py:11-22 | The table starts empty, the invariant holds, and the first id will be 1. |
| `Contacts.ContactBook.Lookup` | app.py:112-113 | `SELECT ... WHERE name=?` finds a row exactly when the name is in the table, and returns that row. |
| `Contacts.ContactBook.Add` | app.py:43-59 | A failed guard is returned and nothing changes. A taken name gives `Duplicate` and nothing changes. Otherwise: `Ok`, the name maps to exactly the given phone and email under a new id, every other row stays, and the invariant is kept. |
| `Contacts.ContactBook.Update` | app.py:83-99 | A failed guard is returned and nothing changes. An absent name gives `NotFound` and nothing changes. Otherwise: `Ok`, and only that row's phone and email are replaced (its name and id stay, and so does every other row). |
| `Contacts.ContactBook.Delete` | app.py:106-120 | An empty name gives `MissingField`. An absent name gives `NotFound`. In both cases nothing changes. Otherwise: `Ok`, exactly that row is removed, and the size drops by one. |
| `Contacts.ContactBook.List` | app.py:64-74 | The list has one line per row. Each line is a row as stored, every name appears, and names strictly ascend. An empty table gives an empty list. |
| `Contacts.ListStep` | app.py:66-67 | Emitting the least pending name keeps the partial listing sorted, complete for the names emitted, and below every pending name. |
| `Contacts.RemoveWellFormed` | app.py:114 | `DELETE ... WHERE name=?` keeps the table invariant. |
| `Contacts.ReplaceWellFormed` | app.py:93 | `UPDATE ... SET phone=?, email=?` with values that passed the guards keeps the table invariant. |
| `Scenarios.AddThenList` | app.py:43-74 | Saving a new, well-formed contact, then listing, shows that contact exactly once, with its phone and email unchanged. |
| `Scenarios.SaveBobAndList` | app.py:49-72 | On a fresh store, saving ("Bob", "5551234", "bob@x.com") and listing returns exactly that one row. |
| `Scenarios.AddTwice` | app.py:51-57 | A second save of the same name reports `Duplicate`, or the guard that stopped it earlier. The first row stays unchanged. |
| `Scenarios.DeleteTwice` | app.py:106-120 | Deleting the same name twice gives `Ok` then `NotFound`, and only that row is gone. |

## Left out

- The Streamlit page: titles, tabs, text inputs, buttons, message texts and `st.rerun`. A handler's message is modelled only as its outcome.
- SQLite connection handling: `get_db_connection`, `check_same_thread`, commit and close, and the `contacts.db` path. Each statement is one atomic step on the map.
- A `contacts.db` left over from an earlier run. The model starts from the empty table that `CREATE TABLE IF NOT EXISTS` makes on a fresh store. Rows written by other means need not satisfy `Valid()`.
- Concurrency. The SELECT that decides "not found" and the UPDATE or DELETE after it are separate statements. Two writers could race on one name. The source leaves that undefined, and the model runs handlers one at a time.
- `IsDigit` and `IsWordChar` are ASCII only. Python's `\d` and `\w` on `str` also accept other Unicode decimal digits and letters.
- `Collation.Less` compares Unicode scalar values. This orders the same as BINARY collation on valid UTF-8. SQLite's treatment of invalid UTF-8 and embedded NUL characters is not modelled.
- `Contacts.ContactBook.Add` uses unbounded ids. AUTOINCREMENT's `sqlite_sequence` bookkeeping and its failure once the largest 64-bit rowid is used are not modelled.
- The listing does not include `id`, because the view's SELECT does not fetch it.
