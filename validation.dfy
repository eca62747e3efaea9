/**
 * The three input validators. Each runs an ordered chain of checks and
 * returns the message of the first check that fails, or `None` when every
 * check passes. The database lookups the chains end with
 * (`username_available`, `book_exists`) are the oracle parameters
 * `usernameAvailable` and `bookExists`.
 */
module Validation {
  import opened Wrappers
  import opened PyStr
  import PyInt

  // ---------------------------------------------------------------------
  // First failing rule: the reference semantics of every validator
  // ---------------------------------------------------------------------

  /** One validation rule: whether the input satisfies it, and the message reported when it does not. */
  datatype Rule = Rule(holds: bool, message: string)

  /** Rule `i` is broken and every rule before it holds. */
  predicate BrokenFirst(rules: seq<Rule>, i: int) {
    && 0 <= i < |rules|
    && !rules[i].holds
    && forall j :: 0 <= j < i ==> rules[j].holds
  }

  /** The message of the first broken rule in `rules`, or `None` when every rule holds. */
  function FirstFailure(rules: seq<Rule>): (r: Option<string>)
    ensures r.None? <==> forall i :: 0 <= i < |rules| ==> rules[i].holds
    ensures forall i :: BrokenFirst(rules, i) ==> r == Some(rules[i].message)
  {
    if rules == [] then None
    else if !rules[0].holds then Some(rules[0].message)
    else
      assert forall i :: BrokenFirst(rules, i) ==> BrokenFirst(rules[1..], i - 1);
      FirstFailure(rules[1..])
  }

  /** Whenever some rule is broken, exactly one rule is the first broken one. */
  lemma {:induction false} SomeRuleBrokenFirst(rules: seq<Rule>, k: int)
    requires 0 <= k < |rules| && !rules[k].holds
    ensures exists i :: BrokenFirst(rules, i)
    ensures forall i, i' :: BrokenFirst(rules, i) && BrokenFirst(rules, i') ==> i == i'
  {
    if forall j :: 0 <= j < k ==> rules[j].holds {
      assert BrokenFirst(rules, k);
    } else {
      var j :| 0 <= j < k && !rules[j].holds;
      SomeRuleBrokenFirst(rules[..k], j);
      var i :| BrokenFirst(rules[..k], i);
      assert BrokenFirst(rules, i);
    }
  }

  /** A validator's message names the first broken rule, and only that one. */
  lemma FirstFailureNamesFirstBrokenRule(rules: seq<Rule>, m: string)
    ensures FirstFailure(rules) == Some(m) <==> exists i :: BrokenFirst(rules, i) && rules[i].message == m
  {
    if FirstFailure(rules).Some? {
      var k :| 0 <= k < |rules| && !rules[k].holds;
      SomeRuleBrokenFirst(rules, k);
    }
  }

  // ---------------------------------------------------------------------
  // Account creation (utils.py:50-60)
  // ---------------------------------------------------------------------

  const UsernameLengthMessage := "Username must be between 1 and 20 characters long"
  const UsernameCharsetMessage := "Username must only include letters and numbers"
  /** The text says 50 although the check allows at most 20 characters; kept as written. */
  const DisplayNameLengthMessage := "Display name must be between 1 and 50 characters long"
  const PinMessage := "Pin must consist of 4 digits"

  function UsernameTakenMessage(username: string): string {
    "Username " + username + " is already taken"
  }

  /** The account rules in the order they are checked. */
  function AccountRules(username: string, displayName: string, pin: string,
                        usernameAvailable: string -> bool): seq<Rule>
  {
    [ Rule(1 <= |username| <= 20, UsernameLengthMessage),
      Rule(IsAlnum(username), UsernameCharsetMessage),
      Rule(1 <= |displayName| <= 20, DisplayNameLengthMessage),
      Rule(IsDigit(pin) && |pin| == 4, PinMessage),
      Rule(usernameAvailable(username), UsernameTakenMessage(username)) ]
  }

  /** The fields of a new user record are well formed: what every check but the availability lookup asks. */
  predicate WellFormedAccount(username: string, displayName: string, pin: string) {
    && 1 <= |username| <= 20
    && IsAlnum(username)
    && 1 <= |displayName| <= 20
    && IsDigit(pin) && |pin| == 4
  }

  /**
   * `get_account_creation_error`: the chain of checks with early return. An
   * account is accepted exactly when it is well formed and its username is
   * available; otherwise one of the account messages comes back.
   */
  function AccountCreationError(username: string, displayName: string, pin: string,
                                usernameAvailable: string -> bool): (r: Option<string>)
    ensures r == None <==> WellFormedAccount(username, displayName, pin) && usernameAvailable(username)
    ensures r.Some? ==> r.value in {UsernameLengthMessage, UsernameCharsetMessage, DisplayNameLengthMessage,
                                    PinMessage, UsernameTakenMessage(username)}
  {
    if !(1 <= |username| <= 20) then Some(UsernameLengthMessage)
    else if !IsAlnum(username) then Some(UsernameCharsetMessage)
    else if !(1 <= |displayName| <= 20) then Some(DisplayNameLengthMessage)
    else if !IsDigit(pin) || |pin| != 4 then Some(PinMessage)
    else if !usernameAvailable(username) then Some(UsernameTakenMessage(username))
    else None
  }

  /** The account validator reports the first broken account rule, and nothing when all hold. */
  lemma AccountReportsFirstBrokenRule(username: string, displayName: string, pin: string,
                                      usernameAvailable: string -> bool)
    ensures AccountCreationError(username, displayName, pin, usernameAvailable)
         == FirstFailure(AccountRules(username, displayName, pin, usernameAvailable))
  {
    var rules := AccountRules(username, displayName, pin, usernameAvailable);
    if !(1 <= |username| <= 20) {
      assert BrokenFirst(rules, 0);
    } else if !IsAlnum(username) {
      assert BrokenFirst(rules, 1);
    } else if !(1 <= |displayName| <= 20) {
      assert BrokenFirst(rules, 2);
    } else if !IsDigit(pin) || |pin| != 4 {
      assert BrokenFirst(rules, 3);
    } else if !usernameAvailable(username) {
      assert BrokenFirst(rules, 4);
    }
  }

  /** The taken-username message never coincides with one of the fixed messages: it ends in "taken". */
  lemma UsernameTakenMessageDistinct(username: string)
    ensures UsernameTakenMessage(username) !in
      {UsernameLengthMessage, UsernameCharsetMessage, DisplayNameLengthMessage, PinMessage}
  {
    var m := UsernameTakenMessage(username);
    assert m[|m| - 1] == 'n';
  }

  /**
   * A username whose length is outside [1, 20] gets the length message,
   * whatever the display name, the pin and the availability lookup say.
   */
  lemma UsernameLengthCheckedFirst(username: string, displayName: string, pin: string,
                                   usernameAvailable: string -> bool)
    requires !(1 <= |username| <= 20)
    ensures AccountCreationError(username, displayName, pin, usernameAvailable) == Some(UsernameLengthMessage)
  {
  }

  /** A username of valid length with a character that is not a letter or digit gets the charset message. */
  lemma UsernameCharsetChecked(username: string, displayName: string, pin: string,
                               usernameAvailable: string -> bool)
    requires 1 <= |username| <= 20
    requires exists i :: 0 <= i < |username| && !IsAsciiAlnum(username[i])
    ensures AccountCreationError(username, displayName, pin, usernameAvailable) == Some(UsernameCharsetMessage)
  {
  }

  /**
   * The pin message is returned exactly when the username and display-name
   * checks pass and the pin is not four digit characters.
   */
  lemma PinMessageExactly(username: string, displayName: string, pin: string,
                          usernameAvailable: string -> bool)
    ensures AccountCreationError(username, displayName, pin, usernameAvailable) == Some(PinMessage)
        <==> (&& 1 <= |username| <= 20 && IsAlnum(username) && 1 <= |displayName| <= 20
              && !(IsDigit(pin) && |pin| == 4))
    ensures (|pin| == 4 && forall i :: 0 <= i < 4 ==> IsAsciiDigit(pin[i]))
        ==> AccountCreationError(username, displayName, pin, usernameAvailable) != Some(PinMessage)
  {
    UsernameTakenMessageDistinct(username);
  }

  /** The lookup decides only when every structural check passes; before that it is not consulted. */
  lemma AvailabilityConsultedLast(username: string, displayName: string, pin: string,
                                  usernameAvailable: string -> bool, usernameAvailable': string -> bool)
    requires !WellFormedAccount(username, displayName, pin)
    ensures AccountCreationError(username, displayName, pin, usernameAvailable)
         == AccountCreationError(username, displayName, pin, usernameAvailable')
  {
  }

  /** "Already taken" is reported exactly for a well-formed account whose username is unavailable. */
  lemma UsernameTakenExactly(username: string, displayName: string, pin: string,
                             usernameAvailable: string -> bool)
    ensures AccountCreationError(username, displayName, pin, usernameAvailable) == Some(UsernameTakenMessage(username))
        <==> WellFormedAccount(username, displayName, pin) && !usernameAvailable(username)
  {
    UsernameTakenMessageDistinct(username);
  }

  /** The display-name check allows at most 20 characters, although its message speaks of 50. */
  lemma DisplayNameLimitIsTwenty(username: string, displayName: string, pin: string,
                                 usernameAvailable: string -> bool)
    requires 1 <= |username| <= 20 && IsAlnum(username)
    requires 20 < |displayName| <= 50
    ensures AccountCreationError(username, displayName, pin, usernameAvailable) == Some(DisplayNameLengthMessage)
  {
  }

  /**
   * The `username_available` that ships is a placeholder that always answers
   * `True`; with it, "already taken" never comes back, and an account is
   * accepted exactly when it is well formed.
   */
  lemma ShippedUsernameLookup(username: string, displayName: string, pin: string)
    ensures AccountCreationError(username, displayName, pin, (u: string) => true) != Some(UsernameTakenMessage(username))
    ensures AccountCreationError(username, displayName, pin, (u: string) => true) == None
        <==> WellFormedAccount(username, displayName, pin)
  {
    UsernameTakenExactly(username, displayName, pin, (u: string) => true);
  }

  // ---------------------------------------------------------------------
  // Book creation (utils.py:63-71)
  // ---------------------------------------------------------------------

  const TitleLengthMessage := "Title must be between 1 and 255 characters long"
  const AuthorLengthMessage := "Author must be at most 255 characters long"
  /** The text says "digits" although the check counts characters of any kind; kept as written. */
  const IsbnLengthMessage := "ISBN must consist of exactly 10 or 13 digits"

  function IsbnTakenMessage(isbn: string): string {
    "A book with ISBN " + isbn + " already exists in the database"
  }

  /** The book rules in the order they are checked; an absent or empty author or ISBN satisfies its rules. */
  function BookRules(title: string, author: Option<string>, isbn: Option<string>,
                     bookExists: string -> bool): seq<Rule>
  {
    [ Rule(1 <= |title| <= 255, TitleLengthMessage),
      Rule(!(Truthy(author) && |author.value| > 255), AuthorLengthMessage),
      Rule(!(Truthy(isbn) && |isbn.value| != 10 && |isbn.value| != 13), IsbnLengthMessage),
      Rule(!(Truthy(isbn) && bookExists(isbn.value)), IsbnTakenMessage(isbn.GetOr(""))) ]
  }

  /** The fields of a new book record are well formed: what every check but the ISBN lookup asks. */
  predicate WellFormedBook(title: string, author: Option<string>, isbn: Option<string>) {
    && 1 <= |title| <= 255
    && (Truthy(author) ==> |author.value| <= 255)
    && (Truthy(isbn) ==> |isbn.value| == 10 || |isbn.value| == 13)
  }

  /**
   * `get_book_creation_error`: the chain of checks with early return. A book
   * is accepted exactly when it is well formed and no stored book has its
   * non-empty ISBN; otherwise one of the book messages comes back.
   */
  function BookCreationError(title: string, author: Option<string>, isbn: Option<string>,
                             bookExists: string -> bool): (r: Option<string>)
    ensures r == None <==> WellFormedBook(title, author, isbn) && !(Truthy(isbn) && bookExists(isbn.value))
    ensures r.Some? ==> r.value in {TitleLengthMessage, AuthorLengthMessage, IsbnLengthMessage,
                                    IsbnTakenMessage(isbn.GetOr(""))}
  {
    if !(1 <= |title| <= 255) then Some(TitleLengthMessage)
    else if Truthy(author) && |author.value| > 255 then Some(AuthorLengthMessage)
    else if Truthy(isbn) && |isbn.value| != 10 && |isbn.value| != 13 then Some(IsbnLengthMessage)
    else if Truthy(isbn) && bookExists(isbn.value) then Some(IsbnTakenMessage(isbn.value))
    else None
  }

  /** The book validator reports the first broken book rule, and nothing when all hold. */
  lemma BookReportsFirstBrokenRule(title: string, author: Option<string>, isbn: Option<string>,
                                   bookExists: string -> bool)
    ensures BookCreationError(title, author, isbn, bookExists)
         == FirstFailure(BookRules(title, author, isbn, bookExists))
  {
    var rules := BookRules(title, author, isbn, bookExists);
    if !(1 <= |title| <= 255) {
      assert BrokenFirst(rules, 0);
    } else if Truthy(author) && |author.value| > 255 {
      assert BrokenFirst(rules, 1);
    } else if Truthy(isbn) && |isbn.value| != 10 && |isbn.value| != 13 {
      assert BrokenFirst(rules, 2);
    } else if Truthy(isbn) && bookExists(isbn.value) {
      assert BrokenFirst(rules, 3);
    }
  }

  /** The ISBN-taken message never coincides with one of the fixed messages: it ends in "database". */
  lemma IsbnTakenMessageDistinct(isbn: string)
    ensures IsbnTakenMessage(isbn) !in {TitleLengthMessage, AuthorLengthMessage, IsbnLengthMessage}
  {
    var m := IsbnTakenMessage(isbn);
    assert m[|m| - 1] == 'e';
  }

  /** The title message is returned exactly when the title's length is outside [1, 255]. */
  lemma TitleMessageExactly(title: string, author: Option<string>, isbn: Option<string>,
                            bookExists: string -> bool)
    ensures BookCreationError(title, author, isbn, bookExists) == Some(TitleLengthMessage)
        <==> !(1 <= |title| <= 255)
  {
    IsbnTakenMessageDistinct(isbn.GetOr(""));
  }

  /** An absent or empty author is not checked: the result is that of no author at all. */
  lemma EmptyAuthorSkipped(title: string, author: Option<string>, isbn: Option<string>,
                           bookExists: string -> bool)
    requires !Truthy(author)
    ensures BookCreationError(title, author, isbn, bookExists) == BookCreationError(title, None, isbn, bookExists)
  {
  }

  /** An absent or empty ISBN is not checked and the lookup is not consulted. */
  lemma EmptyIsbnSkipped(title: string, author: Option<string>, isbn: Option<string>,
                         bookExists: string -> bool, bookExists': string -> bool)
    requires !Truthy(isbn)
    ensures BookCreationError(title, author, isbn, bookExists) == BookCreationError(title, author, None, bookExists')
  {
  }

  /**
   * A present ISBN whose length is neither 10 nor 13 gets the length message
   * once title and author pass, whatever the lookup would say.
   */
  lemma IsbnLengthChecked(title: string, author: Option<string>, isbn: Option<string>,
                          bookExists: string -> bool)
    requires 1 <= |title| <= 255 && !(Truthy(author) && |author.value| > 255)
    requires Truthy(isbn) && |isbn.value| != 10 && |isbn.value| != 13
    ensures BookCreationError(title, author, isbn, bookExists) == Some(IsbnLengthMessage)
  {
  }

  /**
   * The ISBN length counts characters: any ISBN of 10 or 13 characters,
   * letters included, passes the check whose message calls them "digits".
   */
  lemma IsbnLengthCountsCharacters(title: string, author: Option<string>, isbn: string,
                                   bookExists: string -> bool)
    requires |isbn| == 10 || |isbn| == 13
    ensures BookCreationError(title, author, Some(isbn), bookExists) != Some(IsbnLengthMessage)
  {
    IsbnTakenMessageDistinct(isbn);
  }

  /** The lookup decides only for a well-formed book with a non-empty ISBN; otherwise it is not consulted. */
  lemma BookLookupConsultedLast(title: string, author: Option<string>, isbn: Option<string>,
                                bookExists: string -> bool, bookExists': string -> bool)
    requires !(WellFormedBook(title, author, isbn) && Truthy(isbn))
    ensures BookCreationError(title, author, isbn, bookExists) == BookCreationError(title, author, isbn, bookExists')
  {
  }

  /** "Already exists" is reported exactly for a well-formed book whose non-empty ISBN is in use. */
  lemma IsbnTakenExactly(title: string, author: Option<string>, isbn: string, bookExists: string -> bool)
    ensures BookCreationError(title, author, Some(isbn), bookExists) == Some(IsbnTakenMessage(isbn))
        <==> WellFormedBook(title, author, Some(isbn)) && |isbn| > 0 && bookExists(isbn)
  {
    IsbnTakenMessageDistinct(isbn);
  }

  /**
   * The `book_exists` that ships is a placeholder that always answers
   * `False`; with it, "already exists" never comes back, and a book is
   * accepted exactly when it is well formed.
   */
  lemma ShippedBookLookup(title: string, author: Option<string>, isbn: string)
    ensures BookCreationError(title, author, Some(isbn), (i: string) => false) != Some(IsbnTakenMessage(isbn))
    ensures BookCreationError(title, author, Some(isbn), (i: string) => false) == None
        <==> WellFormedBook(title, author, Some(isbn))
  {
    IsbnTakenExactly(title, author, isbn, (i: string) => false);
  }

  // ---------------------------------------------------------------------
  // Rating creation (utils.py:74-82)
  // ---------------------------------------------------------------------

  const WholeNumberMessage := "Score must be a whole number"
  const ScoreRangeMessage := "Score must be between 1 and 5"
  const ReviewLengthMessage := "Review must be at most 255 characters long"

  /** The rating rules in the order they are checked; the range rule speaks only of a score that parsed. */
  function RatingRules(score: string, review: Option<string>): seq<Rule> {
    var n := PyInt.ParseInt(score);
    [ Rule(n.Some?, WholeNumberMessage),
      Rule(n.None? || 1 <= n.value <= 5, ScoreRangeMessage),
      Rule(!(Truthy(review) && |review.value| > 255), ReviewLengthMessage) ]
  }

  /**
   * `get_rating_creation_error`: `int(score)` raising `ValueError` is the
   * first failure. A rating is accepted exactly when its score is a whole
   * number in [1, 5] and its review, if any, fits in 255 characters.
   */
  function RatingCreationError(score: string, review: Option<string>): (r: Option<string>)
    ensures r == None <==> && PyInt.ParseInt(score).Some? && 1 <= PyInt.ParseInt(score).value <= 5
                           && (Truthy(review) ==> |review.value| <= 255)
    ensures r.Some? ==> r.value in {WholeNumberMessage, ScoreRangeMessage, ReviewLengthMessage}
  {
    match PyInt.ParseInt(score)
    case None => Some(WholeNumberMessage)
    case Some(n) =>
      if !(1 <= n <= 5) then Some(ScoreRangeMessage)
      else if Truthy(review) && |review.value| > 255 then Some(ReviewLengthMessage)
      else None
  }

  /** The rating validator reports the first broken rating rule, and nothing when all hold. */
  lemma RatingReportsFirstBrokenRule(score: string, review: Option<string>)
    ensures RatingCreationError(score, review) == FirstFailure(RatingRules(score, review))
  {
    var rules := RatingRules(score, review);
    var n := PyInt.ParseInt(score);
    if n.None? {
      assert BrokenFirst(rules, 0);
    } else if !(1 <= n.value <= 5) {
      assert BrokenFirst(rules, 1);
    } else if Truthy(review) && |review.value| > 255 {
      assert BrokenFirst(rules, 2);
    }
  }

  /** "Whole number" is reported exactly when `int(score)` raises `ValueError`. */
  lemma WholeNumberMessageExactly(score: string, review: Option<string>)
    ensures RatingCreationError(score, review) == Some(WholeNumberMessage) <==> PyInt.ParseInt(score).None?
  {
  }

  /** The range message is reported exactly for a score that parses to a value outside [1, 5]. */
  lemma ScoreRangeMessageExactly(score: string, review: Option<string>)
    ensures RatingCreationError(score, review) == Some(ScoreRangeMessage)
        <==> PyInt.ParseInt(score).Some? && !(1 <= PyInt.ParseInt(score).value <= 5)
  {
  }

  /** The review is looked at only when the score is a whole number in [1, 5]. */
  lemma ReviewCheckedOnlyForValidScore(score: string, review: Option<string>, review': Option<string>)
    requires !(PyInt.ParseInt(score).Some? && 1 <= PyInt.ParseInt(score).value <= 5)
    ensures RatingCreationError(score, review) == RatingCreationError(score, review')
  {
  }

  /** A score from 1 to 5 written as `str(k)` with whitespace around it passes when the review fits. */
  lemma PaddedScoreAccepted(ws: string, k: int, ws': string, review: Option<string>)
    requires AllChars(ws, PyInt.IsSpace) && AllChars(ws', PyInt.IsSpace)
    requires 1 <= k <= 5
    requires !(Truthy(review) && |review.value| > 255)
    ensures RatingCreationError(ws + PyInt.Show(k) + ws', review) == None
  {
    var score := ws + PyInt.Show(k) + ws';
    PyInt.ParseIntPadded(ws, PyInt.Show(k), ws');
    PyInt.ParseIntOfShow(k);
    assert PyInt.ParseInt(score) == Some(k);
    ScoreInRangeAccepted(score, review);
  }

  lemma ScoreInRangeAccepted(score: string, review: Option<string>)
    requires PyInt.ParseInt(score).Some? && 1 <= PyInt.ParseInt(score).value <= 5
    requires !(Truthy(review) && |review.value| > 255)
    ensures RatingCreationError(score, review) == None
  {
  }

  /**
   * A score with a decimal point anywhere, such as `3.0`, `3.50` or ` 10.0 `,
   * is not a whole number for `int()`, even when its value is one.
   */
  lemma DecimalScoreRejected(score: string, i: nat, review: Option<string>)
    requires i < |score| && score[i] == '.'
    ensures RatingCreationError(score, review) == Some(WholeNumberMessage)
  {
    PyInt.ForeignCharRejected(score, i);
  }
}
