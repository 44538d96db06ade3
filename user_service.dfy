/**
 * UserService: the checks a new user goes through and the registration
 * itself. validateUser runs the name, email and password checks in a fixed
 * order and reports the first that fails; registerUser refuses an email that
 * is already taken and otherwise inserts the user.
 *
 * The password rules are passay's: a length between 8 and 128 and at least
 * one upper-case letter, one lower-case letter, one digit and one special
 * char. passay reports every broken rule in rule order; the service raises
 * the first message.
 */
module UserRegistration {
  import opened Common
  import opened JavaStrings
  import opened SqlLike
  import opened Entities
  import opened UserStore

  // ---------------------------------------------------------------- names and email

  const MaxNameLength: nat := 30
  const MaxEmailLength: nat := 50

  /** `name.matches("^[a-zA-Z]*$")`: ASCII letters only; the empty name matches. */
  predicate OnlyLetters(name: string) {
    forall i | 0 <= i < |name| :: IsAsciiLetter(name[i])
  }

  /** validateName for one field ("firstname" or "lastname"): the length first, then the letters. */
  function NameCheck(field: string, name: string): (r: Outcome)
    ensures r == Pass <==> Utf16Length(name) <= MaxNameLength && OnlyLetters(name)
    ensures Utf16Length(name) > MaxNameLength ==>
      r == Fail(IllegalArgument("Invalid " + field + ". Too many characters"))
    ensures Utf16Length(name) <= MaxNameLength && !OnlyLetters(name) ==>
      r == Fail(IllegalArgument("Invalid " + field + ". Name should contain only characters"))
  {
    if Utf16Length(name) > MaxNameLength then Fail(IllegalArgument("Invalid " + field + ". Too many characters"))
    else if !OnlyLetters(name) then Fail(IllegalArgument("Invalid " + field + ". Name should contain only characters"))
    else Pass
  }

  /** validateName: the firstname's checks, then the lastname's. */
  function ValidateName(firstname: string, lastname: string): (r: Outcome)
    ensures r == Pass <==> NameCheck("firstname", firstname) == Pass && NameCheck("lastname", lastname) == Pass
    ensures NameCheck("firstname", firstname).Fail? ==> r == NameCheck("firstname", firstname)
  {
    if NameCheck("firstname", firstname).Fail? then NameCheck("firstname", firstname)
    else NameCheck("lastname", lastname)
  }

  /** validateEmail: only the length is checked. */
  function ValidateEmail(email: string): (r: Outcome)
    ensures r == Pass <==> Utf16Length(email) <= MaxEmailLength
    ensures r.Fail? ==> r.error == IllegalArgument("Invalid email. Too many characters")
  {
    if Utf16Length(email) > MaxEmailLength then Fail(IllegalArgument("Invalid email. Too many characters"))
    else Pass
  }

  /** The empty name passes validateName's checks; only the request's @NotBlank refuses it. */
  lemma EmptyNamePasses(field: string)
    ensures NameCheck(field, "") == Pass
  {
  }

  /** A name that is both too long and not all letters is reported as too long. */
  lemma LengthReportedBeforeLetters(field: string, name: string)
    requires |name| > MaxNameLength && !OnlyLetters(name)
    ensures NameCheck(field, name) == Fail(IllegalArgument("Invalid " + field + ". Too many characters"))
  {
  }

  /** Any text up to 50 chars passes validateEmail, whether or not it looks like an address. */
  lemma NoEmailGrammar(email: string)
    requires |email| <= MaxEmailLength && forall i | 0 <= i < |email| :: email[i] as int <= 0xFFFF
    ensures ValidateEmail(email) == Pass
  {
  }

  // ---------------------------------------------------------------- passwords

  /** passay's EnglishCharacterData.Special, as far as ASCII goes: the printable punctuation. */
  predicate IsSpecial(c: char) {
    ('!' <= c <= '/') || (':' <= c <= '@') || ('[' <= c <= '`') || ('{' <= c <= '~')
  }

  /** The number of chars of `s` in a character class, as passay's CharacterRule counts them. */
  function CountChars(s: string, inClass: char -> bool): (n: nat)
    ensures n <= |s|
  {
    if s == [] then 0 else (if inClass(s[0]) then 1 else 0) + CountChars(s[1..], inClass)
  }

  /** A count of at least one means some char is in the class. */
  lemma {:induction false} CountPositiveIffSome(s: string, inClass: char -> bool)
    ensures CountChars(s, inClass) >= 1 <==> exists i | 0 <= i < |s| :: inClass(s[i])
  {
    if s != [] {
      CountPositiveIffSome(s[1..], inClass);
      if exists i | 0 <= i < |s| :: inClass(s[i]) {
        var i :| 0 <= i < |s| && inClass(s[i]);
        if i > 0 {
          assert s[1..][i - 1] == s[i];
        }
      }
      if exists i | 0 <= i < |s[1..]| :: inClass(s[1..][i]) {
        var i :| 0 <= i < |s[1..]| && inClass(s[1..][i]);
        assert s[i + 1] == s[1..][i];
      }
    }
  }

  /** The rules of the password validator, in the order they are given to it. */
  datatype PasswordRule = TooShort | TooLong | NoUppercase | NoLowercase | NoDigit | NoSpecial
  {
    /** passay's default message for the rule with the service's parameters. */
    function Message(): string {
      match this
      case TooShort => "Password must be 8 or more characters in length."
      case TooLong => "Password must be no more than 128 characters in length."
      case NoUppercase => "Password must contain 1 or more uppercase characters."
      case NoLowercase => "Password must contain 1 or more lowercase characters."
      case NoDigit => "Password must contain 1 or more digit characters."
      case NoSpecial => "Password must contain 1 or more special characters."
    }

    /** Position of the rule's message in passay's report; a password is never both too short and too long. */
    function Rank(): nat {
      match this
      case TooShort => 0
      case TooLong => 1
      case NoUppercase => 2
      case NoLowercase => 3
      case NoDigit => 4
      case NoSpecial => 5
    }
  }

  const MinPasswordLength: nat := 8
  const MaxPasswordLength: nat := 128

  /** The password breaks the rule. */
  predicate Breaks(p: string, rule: PasswordRule) {
    match rule
    case TooShort => Utf16Length(p) < MinPasswordLength
    case TooLong => Utf16Length(p) > MaxPasswordLength
    case NoUppercase => CountChars(p, IsAsciiUpper) < 1
    case NoLowercase => CountChars(p, IsAsciiLower) < 1
    case NoDigit => CountChars(p, IsAsciiDigit) < 1
    case NoSpecial => CountChars(p, IsSpecial) < 1
  }

  /** The rules in the order the validator is built with. */
  const PasswordRules: seq<PasswordRule> := [TooShort, TooLong, NoUppercase, NoLowercase, NoDigit, NoSpecial]

  predicate RankSorted(rules: seq<PasswordRule>) {
    forall i, j | 0 <= i < j < |rules| :: rules[i].Rank() < rules[j].Rank()
  }

  /** The rules of the list that the password breaks, in list order. */
  function BrokenRules(p: string, rules: seq<PasswordRule>): (r: seq<PasswordRule>)
    requires RankSorted(rules)
    ensures forall x :: x in r <==> x in rules && Breaks(p, x)
    ensures RankSorted(r)
  {
    if rules == [] then []
    else
      var rest := BrokenRules(p, rules[1..]);
      assert forall x | x in rest :: rules[0].Rank() < x.Rank() by {
        forall x | x in rest ensures rules[0].Rank() < x.Rank() {
          var k :| 0 <= k < |rules[1..]| && rules[1..][k] == x;
          assert rules[k + 1] == x;
        }
      }
      if Breaks(p, rules[0]) then [rules[0]] + rest else rest
  }

  /** The rules a password breaks, in the validator's order. */
  function PasswordViolations(p: string): (r: seq<PasswordRule>)
    ensures RankSorted(r)
    ensures forall rule: PasswordRule :: rule in r <==> Breaks(p, rule)
  {
    assert RankSorted(PasswordRules);
    BrokenRules(p, PasswordRules)
  }

  /** validatePassword: pass, or the message of the first broken rule. */
  function ValidatePassword(p: string): (r: Outcome)
    ensures r == Pass <==> PasswordViolations(p) == []
    ensures r.Fail? ==> r.error == IllegalArgument(PasswordViolations(p)[0].Message())
  {
    var broken := PasswordViolations(p);
    if broken == [] then Pass else Fail(IllegalArgument(broken[0].Message()))
  }

  /** What the rules ask of a password, stated over its chars. */
  predicate StrongPassword(p: string) {
    MinPasswordLength <= Utf16Length(p) <= MaxPasswordLength
    && (exists i | 0 <= i < |p| :: IsAsciiUpper(p[i]))
    && (exists i | 0 <= i < |p| :: IsAsciiLower(p[i]))
    && (exists i | 0 <= i < |p| :: IsAsciiDigit(p[i]))
    && (exists i | 0 <= i < |p| :: IsSpecial(p[i]))
  }

  /** A password is accepted exactly when it is strong. */
  lemma PasswordAcceptedIffStrong(p: string)
    ensures ValidatePassword(p) == Pass <==> StrongPassword(p)
  {
    StrongIffNothingBroken(p);
    var r := PasswordViolations(p);
    if r != [] {
      assert r[0] in r;
    }
  }

  lemma StrongIffNothingBroken(p: string)
    ensures StrongPassword(p) <==> forall rule: PasswordRule :: !Breaks(p, rule)
  {
    CountPositiveIffSome(p, IsAsciiUpper);
    CountPositiveIffSome(p, IsAsciiLower);
    CountPositiveIffSome(p, IsAsciiDigit);
    CountPositiveIffSome(p, IsSpecial);
    if forall rule: PasswordRule :: !Breaks(p, rule) {
      assert !Breaks(p, TooShort) && !Breaks(p, TooLong) && !Breaks(p, NoUppercase);
      assert !Breaks(p, NoLowercase) && !Breaks(p, NoDigit) && !Breaks(p, NoSpecial);
    }
  }

  /** A password that is too short is reported as too short, whatever else it lacks. */
  lemma ShortPasswordReportsLength(p: string)
    requires Utf16Length(p) < MinPasswordLength
    ensures ValidatePassword(p) == Fail(IllegalArgument("Password must be 8 or more characters in length."))
  {
    var r := PasswordViolations(p);
    assert TooShort in r;
    FirstByRank(r, TooShort);
  }

  /** A password of a good length with no upper-case letter is reported for that, before any other class. */
  lemma MissingUppercaseReportedFirst(p: string)
    requires MinPasswordLength <= Utf16Length(p) <= MaxPasswordLength
    requires forall i | 0 <= i < |p| :: !IsAsciiUpper(p[i])
    ensures ValidatePassword(p) == Fail(IllegalArgument("Password must contain 1 or more uppercase characters."))
  {
    var r := PasswordViolations(p);
    assert NoUppercase in r by {
      CountPositiveIffSome(p, IsAsciiUpper);
    }
    assert forall y | y in r :: NoUppercase.Rank() <= y.Rank() by {
      LengthRulesAbsent(p);
    }
    FirstByRank(r, NoUppercase);
  }

  /** A password of a good length breaks only rules ranked after the length rule. */
  lemma LengthRulesAbsent(p: string)
    requires MinPasswordLength <= Utf16Length(p) <= MaxPasswordLength
    ensures forall y | y in PasswordViolations(p) :: 2 <= y.Rank()
  {
    assert TooShort !in PasswordViolations(p) && TooLong !in PasswordViolations(p);
  }

  /** In a list sorted by rank, an element of the least rank that can occur comes first. */
  lemma FirstByRank(r: seq<PasswordRule>, x: PasswordRule)
    requires RankSorted(r)
    requires x in r && forall y | y in r :: x.Rank() <= y.Rank()
    ensures r[0] == x
  {
    var k :| 0 <= k < |r| && r[k] == x;
    assert r[0] in r;
  }

  // ---------------------------------------------------------------- the whole user

  /** validateUser: firstname, lastname, email, then password; the first failure is the answer. */
  function ValidateUser(user: User): (r: Outcome)
    ensures r == Pass <==> NameCheck("firstname", user.firstname) == Pass && NameCheck("lastname", user.lastname) == Pass
                           && ValidateEmail(user.email) == Pass && ValidatePassword(user.password) == Pass
    ensures NameCheck("firstname", user.firstname).Fail? ==> r == NameCheck("firstname", user.firstname)
    ensures NameCheck("firstname", user.firstname) == Pass && NameCheck("lastname", user.lastname).Fail? ==>
      r == NameCheck("lastname", user.lastname)
    ensures ValidateName(user.firstname, user.lastname) == Pass && ValidateEmail(user.email).Fail? ==>
      r == ValidateEmail(user.email)
    ensures ValidateName(user.firstname, user.lastname) == Pass && ValidateEmail(user.email) == Pass ==>
      r == ValidatePassword(user.password)
  {
    var names := ValidateName(user.firstname, user.lastname);
    if names.Fail? then names
    else
      var email := ValidateEmail(user.email);
      if email.Fail? then email
      else ValidatePassword(user.password)
  }

  /** A user is accepted exactly when both names, the email and the password are acceptable. */
  lemma ValidUserIff(user: User)
    ensures ValidateUser(user) == Pass <==>
      Utf16Length(user.firstname) <= MaxNameLength && OnlyLetters(user.firstname)
      && Utf16Length(user.lastname) <= MaxNameLength && OnlyLetters(user.lastname)
      && Utf16Length(user.email) <= MaxEmailLength
      && StrongPassword(user.password)
  {
    PasswordAcceptedIffStrong(user.password);
  }

  // ---------------------------------------------------------------- registration

  const DuplicateEmailMessage: string := "The provided email already exists"

  class UserService {
    const repository: UserRepository

    constructor(repository: UserRepository)
      ensures this.repository == repository
    {
      this.repository := repository;
    }

    /**
     * registerUser: an email already taken up to letter case is refused and
     * nothing is inserted; otherwise the user is stored under a new id.
     */
    method RegisterUser(user: User) returns (r: Result<User>)
      requires repository.Valid()
      modifies repository
      ensures repository.Valid()
      ensures r.Err? <==> ExistsIgnoringCase(old(repository.rows), user.email)
      ensures r.Err? ==> r.error == Duplicate(DuplicateEmailMessage) && unchanged(repository)
      ensures r.Ok? ==>
        r.value == user.(id := Some(old(repository.nextId)))
        && repository.rows == old(repository.rows)[old(repository.nextId) := r.value]
    {
      var taken := repository.ExistsUserWithEmailIgnoringCase(user.email);
      if taken {
        return Err(Duplicate(DuplicateEmailMessage));
      }
      var saved := repository.RegisterUser(user);
      r := Ok(saved);
    }

    /** registerUser as written: the existence check reads the email as an ILIKE pattern. */
    method RegisterUserAsWritten(user: User) returns (r: Result<User>)
      requires repository.Valid()
      modifies repository
      ensures repository.Valid()
      ensures ExistsResult(old(repository.rows), user.email).Err? ==>
        r == Err(ExistsResult(old(repository.rows), user.email).error) && unchanged(repository)
      ensures ExistsResult(old(repository.rows), user.email) == Ok(true) ==>
        r == Err(Duplicate(DuplicateEmailMessage)) && unchanged(repository)
      ensures ExistsResult(old(repository.rows), user.email) == Ok(false) ==>
        r == Ok(user.(id := Some(old(repository.nextId))))
        && repository.rows == old(repository.rows)[old(repository.nextId) := r.value]
    {
      var found := repository.ExistsUserWithEmail(user.email);
      if found.Err? {
        return Err(found.error);
      }
      if found.value {
        return Err(Duplicate(DuplicateEmailMessage));
      }
      var saved := repository.RegisterUser(user);
      r := Ok(saved);
    }
  }

  /** A registered user can be found again by the exact email it was stored with. */
  lemma RegisteredUserIsStored(rows: map<int, User>, nextId: int, user: User)
    requires WellNumbered(rows, nextId) && !ExistsIgnoringCase(rows, user.email)
    ensures var saved := user.(id := Some(nextId));
      EmailMatches(rows[nextId := saved], user.email) == {nextId}
  {
    var saved := user.(id := Some(nextId));
    var after := rows[nextId := saved];
    forall id | id in after && after[id].email == user.email
      ensures id == nextId
    {
      if id != nextId {
        assert EqualsIgnoreCase(rows[id].email, user.email);
      }
    }
  }

  /**
   * After a registration the corrected check refuses every spelling of the
   * same email up to case, so one address cannot be registered twice.
   */
  lemma SecondRegistrationRefused(rows: map<int, User>, nextId: int, user: User, again: string)
    requires EqualsIgnoreCase(user.email, again)
    ensures ExistsIgnoringCase(rows[nextId := user.(id := Some(nextId))], again)
  {
    var after := rows[nextId := user.(id := Some(nextId))];
    assert after[nextId].email == user.email;
  }
}
