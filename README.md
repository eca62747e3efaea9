# instabook-demo: validators and access gates

This project models the decision logic in `utils.py` of instabook-demo, a Flask web application for rating books. It covers two parts:

- **The input validators.** `get_account_creation_error`, `get_book_creation_error` and `get_rating_creation_error` each run an ordered chain of checks. Each returns the message of the first failing check, or `None` when every check passes.
- **The access gates.** The decorators `should_be_signed_in`, `should_be_signed_in_as_admin` and `should_be_signed_out` decide from the `user_id` cookie whether the wrapped route handler runs or the request is redirected. The admin gate also asks `is_admin_user` about the id the cookie parses to.

Files:

- `wrappers.dfy`: the `Option` datatype. Python's `None` is `None`.
- `pystr.dfy`: `str.isalnum()`, `str.isdigit()` and Python truthiness for a value that is `None` or a string.
- `pyint.dfy`: Python's `int(s)` on a string in base 10, and `str(n)` on an integer.
- `validation.dfy`: the three validators. Each has a rule table (`AccountRules`, `BookRules`, `RatingRules`) that lists the checks in source order. `FirstFailure` reports the first broken rule in such a table, and is the reference meaning of a validator. The `...ReportsFirstBrokenRule` lemmas prove that each early-return `if` chain equals `FirstFailure` of its table. The remaining lemmas state the properties of each check.
- `gates.dfy`: the three gate decisions, as functions returning an `Outcome`: `RunHandler`, `Redirect(path)` or `RaisesValueError`.

Modelling choices:

- **External lookups are parameters.** `username_available(username)` becomes `usernameAvailable: string -> bool`, `book_exists(isbn)` becomes `bookExists: string -> bool`, and `is_admin_user(user_id)` becomes `isAdmin: int -> bool`. The shipped versions are placeholders marked "Temporary code" that return fixed answers: `username_available` is always `True` (user_management.py:35-39), `book_exists` is always `False` (book_management.py:37-41), and `is_admin_user` is always `True`, because it reads a stub record from `get_user_details` (user_management.py:102-106, 120-121). The model states its properties for every possible answer. The `Shipped...Lookup` lemmas specialise them to the fixed answers.
- **"Not consulted" is stated as independence.** A lookup is not consulted when the result is the same for any two oracles.
- **Optional form fields.** Flask's `request.form.get` returns `None` for a missing field. So `author`, `isbn` and `review`, which the source tests for truthiness, are `Option<string>`. `if author` is `Truthy(author)`: present and non-empty. The cookie is an `Option<string>`. An empty cookie is present (the gates test `is None`), so it counts as signed in.
- **Admin-gate cookie parsing.** The admin gate's `int(cookie)` is modelled with the same `ParseInt` as the score. A cookie that `int()` rejects gives `RaisesValueError`. The sign-in handler sets the cookie to `str(user_id)` (app.py:58), and `AdminGateOnIssuedCookie` proves that such a cookie reaches the lookup with the same id.
- **Messages are kept exactly as written.** The display-name message says "50" but the check allows at most 20 characters (utils.py:55-56). The model checks 20 and keeps the text "50". The ISBN message says "digits" but the check counts characters of any kind (utils.py:68-69). `DisplayNameLimitIsTwenty` and `IsbnLengthCountsCharacters` state this as-written behaviour.
- **ASCII narrowing.**
  - `isalnum()` and `isdigit()` accept only ASCII letters and digits here (`IsAlnum`, `IsDigit`). Python also accepts other Unicode letters and digits.
  - `int()` is modelled for ASCII text. It skips surrounding space and `\t` through `\r`, accepts an optional `+` or `-`, then one or more ASCII digits. A single `_` may separate two digits. Leading zeros are allowed.
  - Python's `len` counts code points. So does `|s|` on a Dafny `string`.

## Model

| member | source | states |
|---|---|---|
| `PyStr.AllChars` | utils.py:53 | true exactly when every character of the string satisfies the character test, as `isalnum()` and `isdigit()` require |
| `PyStr.IsAlnum` | utils.py:53 | `isalnum()`: true exactly when the string is non-empty and every character is an ASCII letter or digit |
| `PyStr.IsDigit` | utils.py:57 | `isdigit()`: true exactly when the string is non-empty and every character is an ASCII digit |
| `PyStr.Truthy` | utils.py:66 | an optional string is truthy exactly when it is neither `None` nor the empty string |
| `PyInt.TrimStart` | utils.py:76 | the result is a suffix of the input with no leading whitespace, and everything removed is whitespace |
| `PyInt.TrimEnd` | utils.py:76 | the result is a prefix of the input with no trailing whitespace, and everything removed is whitespace |
| `PyInt.RemoveUnderscores` | utils.py:76 | every character kept comes from the input and is not an underscore; a string without underscores comes back unchanged |
| `PyInt.RemoveUnderscoresAppend` | utils.py:76 | removing underscores from a concatenation is the concatenation of the two removals |
| `PyInt.ShowNat` | app.py:58 | `str(n)` of a non-negative integer is non-empty, all digits, denotes `n`, and starts with `0` only when it is `"0"` |
| `PyInt.Show` | app.py:58 | `str(n)` is non-empty, starts with `-` exactly when `n` is negative, is digits apart from that sign, and has no leading zero unless it is `"0"`; `ParseIntOfShow` states what it means |
| `PyInt.ParseInt` | utils.py:76 | whatever `int()` accepts ends in a digit and starts with a digit or a sign once whitespace is stripped; `AcceptedForms` says which texts it accepts, `ParseIntOfGroups` and `ParseIntPadded` give the value of each of them, and `ParseIntRejectsOtherChars`, `ForeignCharRejected`, `UnderscoreNeedsDigitBefore`, `UnderscoreNeedsDigitAfter` and `SignNeedsDigitAfter` name the ways it raises |
| `PyInt.ParseIntOfDigits` | utils.py:76 | `int()` of one or more digits, optionally preceded by `+` or `-`, is the number those digits denote, with that sign |
| `PyInt.AcceptedForms` | utils.py:75-78 | `int()` accepts a text exactly when, after stripping, it is digit groups (digits with single underscores between them), with or without one leading sign |
| `PyInt.ParseIntOfGroups` | utils.py:76 | for every sign (none, `+` or `-`) and all digit groups, `int()` returns the number denoted by the digits left once the underscores are removed, with that sign |
| `PyInt.ParseIntPadded` | utils.py:76 | whitespace before and after the text does not change what `int()` returns |
| `PyInt.ParseIntRejectsOtherChars` | utils.py:75-78 | after stripping, a character that is not a digit, an underscore or a leading sign makes `int()` raise `ValueError` |
| `PyInt.ForeignCharRejected` | utils.py:75-78 | a character anywhere in the text that is not whitespace, a digit, an underscore or a sign makes `int()` raise `ValueError` |
| `PyInt.UnderscoreNeedsDigitBefore` | utils.py:75-78 | an underscore anywhere in the text that does not follow a digit makes `int()` raise `ValueError` |
| `PyInt.UnderscoreNeedsDigitAfter` | utils.py:75-78 | an underscore anywhere in the text that is not followed by a digit makes `int()` raise `ValueError` |
| `PyInt.SignNeedsDigitAfter` | utils.py:75-78 | a `+` or `-` anywhere in the text that is not followed by a digit makes `int()` raise `ValueError` |
| `PyInt.UnderscoreBetweenDigits` | utils.py:76 | for every sign and all digit groups `x` and `y`, `int(sign + x + "_" + y) == int(sign + x + y)`, and both succeed |
| `PyInt.MisplacedUnderscores` | utils.py:75-78 | for all strings `x` and `y`, `x + "__" + y`, `"_" + y`, `"+_" + y`, `"-_" + y` and `x + "_"` make `int()` raise `ValueError` |
| `PyInt.LoneSign` | utils.py:75-78 | a lone `+` or `-`, and the empty string, make `int()` raise `ValueError` |
| `PyInt.SpaceAfterSign` | utils.py:75-78 | a sign followed by whitespace makes `int()` raise `ValueError`, whatever comes after |
| `PyInt.DoubledSign` | utils.py:75-78 | two signs in a row make `int()` raise `ValueError`, whatever comes after |
| `PyInt.ParseIntOfShow` | utils.py:21 | `int(str(n)) == n` for every integer `n` |
| `Validation.FirstFailure` | utils.py:50-82 | `None` exactly when every rule holds; when rule `i` is the first broken one, its message |
| `Validation.SomeRuleBrokenFirst` | utils.py:50-82 | when some rule is broken there is a first broken rule, and only one |
| `Validation.FirstFailureNamesFirstBrokenRule` | utils.py:50-82 | the reported message is `m` exactly when some rule is the first broken one and has message `m` |
| `Validation.AccountCreationError` | utils.py:50-60 | `None` exactly when the account is well formed (username 1–20 alphanumeric characters, display name 1–20 characters, pin four digits) and the username is available; otherwise one of the five account messages |
| `Validation.AccountReportsFirstBrokenRule` | utils.py:50-60 | the account result is the message of the first broken rule among: username length, username charset, display-name length, pin, availability |
| `Validation.UsernameTakenMessageDistinct` | utils.py:60 | the "already taken" message differs from the four fixed account messages for every username |
| `Validation.UsernameLengthCheckedFirst` | utils.py:51-52 | a username length outside [1, 20] yields the length message, whatever the display name, pin and availability |
| `Validation.UsernameCharsetChecked` | utils.py:53-54 | a username of valid length with a non-alphanumeric character yields the "letters and numbers" message |
| `Validation.PinMessageExactly` | utils.py:55-58 | the pin message comes back exactly when the username and display-name checks pass and the pin is not four digits; a four-digit pin never yields it |
| `Validation.AvailabilityConsultedLast` | utils.py:59-60 | when a structural check fails, the account result does not depend on `username_available` |
| `Validation.UsernameTakenExactly` | utils.py:50-60 | "already taken" comes back exactly for a well-formed account whose username is unavailable |
| `Validation.ShippedUsernameLookup` | user_management.py:35-39 | with the shipped `username_available`, which always answers `True`, "already taken" never comes back and an account is accepted exactly when it is well formed |
| `Validation.DisplayNameLimitIsTwenty` | utils.py:55-56 | a display name of 21 to 50 characters is rejected, although the message speaks of 50 |
| `Validation.BookCreationError` | utils.py:63-71 | `None` exactly when the title has 1–255 characters, a non-empty author has at most 255, a non-empty ISBN has 10 or 13, and no stored book has that ISBN; otherwise one of the four book messages |
| `Validation.BookReportsFirstBrokenRule` | utils.py:63-71 | the book result is the message of the first broken rule among: title length, author length, ISBN length, ISBN in use |
| `Validation.IsbnTakenMessageDistinct` | utils.py:71 | the "already exists" message differs from the three fixed book messages for every ISBN |
| `Validation.TitleMessageExactly` | utils.py:64-65 | the title message comes back exactly when the title's length is outside [1, 255] |
| `Validation.EmptyAuthorSkipped` | utils.py:66-67 | an absent or empty author gives the same result as no author |
| `Validation.EmptyIsbnSkipped` | utils.py:68-71 | an absent or empty ISBN gives the same result as no ISBN, whatever `book_exists` says |
| `Validation.IsbnLengthChecked` | utils.py:68-69 | once the title and author pass, an ISBN whose length is neither 10 nor 13 yields the length message, whatever `book_exists` says |
| `Validation.IsbnLengthCountsCharacters` | utils.py:68-69 | any ISBN of 10 or 13 characters, whatever the characters, passes the length check, whose message calls them digits |
| `Validation.BookLookupConsultedLast` | utils.py:70-71 | unless the book is well formed and has a non-empty ISBN, the result does not depend on `book_exists` |
| `Validation.IsbnTakenExactly` | utils.py:63-71 | "already exists" comes back exactly for a well-formed book whose non-empty ISBN is in use |
| `Validation.ShippedBookLookup` | book_management.py:37-41 | with the shipped `book_exists`, which always answers `False`, "already exists" never comes back and a book is accepted exactly when it is well formed |
| `Validation.RatingCreationError` | utils.py:74-82 | `None` exactly when `int(score)` succeeds with a value in [1, 5] and a non-empty review has at most 255 characters; otherwise one of the three rating messages |
| `Validation.RatingReportsFirstBrokenRule` | utils.py:74-82 | the rating result is the message of the first broken rule among: whole number, range, review length |
| `Validation.WholeNumberMessageExactly` | utils.py:75-78 | "whole number" comes back exactly when `int(score)` raises `ValueError` |
| `Validation.ScoreRangeMessageExactly` | utils.py:79-80 | the range message comes back exactly when the score parses to a value outside [1, 5] |
| `Validation.ReviewCheckedOnlyForValidScore` | utils.py:81-82 | unless the score is a whole number in [1, 5], the result does not depend on the review |
| `Validation.PaddedScoreAccepted` | utils.py:76-82 | a score `str(k)` for `k` in [1, 5], with whitespace around it, passes when the review fits |
| `Validation.DecimalScoreRejected` | utils.py:75-78 | a score with a decimal point anywhere, such as `3.0`, `3.50` or ` 10.0 `, is not a whole number |
| `Gates.ShouldBeSignedIn` | utils.py:8-14 | runs the handler exactly when the cookie is present; otherwise redirects to `/signin` |
| `Gates.ShouldBeSignedInAsAdmin` | utils.py:17-26 | no cookie redirects to `/signin`; a cookie `int()` rejects raises `ValueError`; runs the handler exactly when the cookie parses to an admin's id; redirects to `/` exactly when it parses to a non-admin's id |
| `Gates.ShouldBeSignedOut` | utils.py:29-35 | runs the handler exactly when the cookie is absent; otherwise redirects to `/` |
| `Gates.SignedInAndSignedOutComplementary` | utils.py:8-35 | for every request, exactly one of a signed-in route and a signed-out route runs its handler |
| `Gates.AdminGateStricterThanSignedIn` | utils.py:17-26 | a request the admin gate lets through is let through by the signed-in gate and turned away by the signed-out gate |
| `Gates.AdminGateOnIssuedCookie` | utils.py:21 | the cookie `str(user_id)` runs the handler exactly for an admin, redirects to `/` otherwise, and never raises |
| `Gates.ShippedAdminLookup` | user_management.py:102-121 | with the shipped `is_admin_user`, which reads a stub record whose `is_admin` is `True`, the admin gate runs the handler exactly for cookies `int()` accepts and never redirects home |
| `Gates.EmptyCookieSignedIn` | utils.py:10 | an empty cookie counts as signed in, is sent home by the signed-out gate, and makes the admin gate raise |

## Left out

- Flask routing, templates, `flash`, setting and deleting cookies, the HTTP error handler and `app.run` (app.py): framework glue and I/O.
- The request readers `get_query_values` and `get_form_values` (utils.py:38-47): they only read Flask request state. Their results are the validators' and gates' arguments.
- The decorator mechanics: wrapping `route_func` and copying `__name__` (utils.py:13, 25, 34). Only the gate's decision is modelled, not the call into the handler.
- `username_available`, `book_exists` and `is_admin_user`: the shipped versions are placeholders that open a database connection and return a fixed answer. The model takes them as oracle parameters and proves its properties for every answer; the `Shipped...Lookup` lemmas cover the fixed answers.
- The data-access modules `user_management.py`, `book_management.py`, `rating_management.py` and `follower_management.py`, and the script `practice.py`. They are SQL wrappers or placeholder stubs that return fixed values.
- `TypeError` from `len(None)` or `int(None)` when a required form field is missing: `username`, `display_name`, `pin`, `title` and `score` are plain strings here.
- PyStr.IsAlnum: accepts ASCII letters and digits only. Python's `isalnum()` also accepts non-ASCII letters and digits.
- PyStr.IsDigit: accepts ASCII digits only. Python's `isdigit()` also accepts other Unicode digits, such as superscripts.
- PyInt.ParseInt: ASCII text only. It leaves out non-ASCII whitespace and digits, which Python's `int()` also accepts. It also leaves out the digit-count limit that newer CPython versions enforce with `ValueError`, because that limit depends on the version and its configuration.
- The non-atomic replacement of a rating (delete, then insert; app.py:107-108): part of the data-access layer.
