/**
 * UserRepository: the `app_user` table behind JDBC, a map from the serial id
 * to the row, with the next value of the id sequence. Nothing in the table
 * makes emails unique, so a lookup by email can find several rows.
 *
 * existsUserWithEmail binds the caller's email as the right-hand side of
 * ILIKE, so it is read as a pattern: `_` and `%` in an email are wildcards,
 * and an email ending in a lone backslash makes the database fail whenever
 * its matcher reaches that backslash on some row. ExistsResult models that;
 * ExistsIgnoringCase is the case-insensitive equality the method is meant to
 * test, and the service registers users against it.
 */
module UserStore {
  import opened Common
  import opened JavaStrings
  import opened SqlLike
  import opened Entities

  /** Every row carries its key as id, and every key was handed out by the sequence. */
  predicate WellNumbered(rows: map<int, User>, nextId: int) {
    nextId >= 1 && forall id | id in rows :: 1 <= id < nextId && rows[id].id == Some(id)
  }

  /** The database's error when its matcher reaches a lone trailing backslash with text left. */
  const TrailingEscapeMessage: string := "LIKE pattern must not end with escape character"

  /** queryForObject's answer when more than one row has the email. */
  const ResultSizeMessage: string := "Incorrect result size: expected 1"

  /** The keys of the rows whose email is exactly `email`, letter case included. */
  function EmailMatches(rows: map<int, User>, email: string): (r: set<int>)
    ensures forall id :: id in r <==> id in rows && rows[id].email == email
  {
    set id | id in rows && rows[id].email == email
  }

  /**
   * `SELECT EXISTS (SELECT 1 FROM app_user WHERE email ILIKE ?)` with the
   * email as the pattern: the scan answers true at a matching row and fails at
   * a row whose match raises the escape error. No row can match a pattern on
   * which another row raises it (SqlLike.ErrorExcludesMatch), so the order of
   * the scan does not change the answer.
   */
  function ExistsResult(rows: map<int, User>, email: string): Result<bool>
  {
    if exists id | id in rows :: MatchText(rows[id].email, email) == LikeTrue then Ok(true)
    else if exists id | id in rows :: MatchText(rows[id].email, email) == EscapeError then
      Err(DataAccess(TrailingEscapeMessage))
    else Ok(false)
  }

  /**
   * What the query answers: for a well-formed pattern, whether some email
   * matches it; for an ill-formed one never true, and the escape error
   * exactly when some row's match raises it.
   */
  lemma ExistsResultMeaning(rows: map<int, User>, email: string)
    ensures PatternOk(email) ==>
      ExistsResult(rows, email) == Ok(exists id | id in rows :: ILike(rows[id].email, email))
    ensures !PatternOk(email) ==> ExistsResult(rows, email) != Ok(true)
    ensures ExistsResult(rows, email).Err? <==>
      exists id | id in rows :: MatchText(rows[id].email, email) == EscapeError
    ensures ExistsResult(rows, email).Err? ==>
      ExistsResult(rows, email).error == DataAccess(TrailingEscapeMessage)
  {
    if PatternOk(email) {
      forall id | id in rows
        ensures MatchText(rows[id].email, email) != EscapeError
        ensures MatchText(rows[id].email, email) == LikeTrue <==> ILike(rows[id].email, email)
      {
        MatchTextAgrees(rows[id].email, email);
      }
    } else {
      forall id | id in rows ensures MatchText(rows[id].email, email) != LikeTrue {
        IllFormedNeverMatches(rows[id].email, email);
      }
    }
  }

  /** Some row's email equals `email` up to letter case. */
  predicate ExistsIgnoringCase(rows: map<int, User>, email: string) {
    exists id | id in rows :: EqualsIgnoreCase(rows[id].email, email)
  }

  /** For an email with no `%`, `_` or backslash the query answers exactly the case-insensitive test. */
  lemma PlainEmailQueryIgnoresCase(rows: map<int, User>, email: string)
    requires IsPlain(email)
    ensures ExistsResult(rows, email) == Ok(ExistsIgnoringCase(rows, email))
  {
    PatternOkUnlessEndsWithEscape(email);
    ExistsResultMeaning(rows, email);
    forall id | id in rows
      ensures ILike(rows[id].email, email) <==> EqualsIgnoreCase(rows[id].email, email)
    {
      PlainMatchIsEqualsIgnoreCase(rows[id].email, email);
    }
  }

  /**
   * An underscore in the new email matches any char of a stored one: with
   * "a.b@x" stored, "a_b@x" is reported as taken though no email equals it
   * up to case.
   */
  lemma UnderscoreEmailFalsePositive(rows: map<int, User>, a: string, c: char, b: string)
    requires IsPlain(a) && IsPlain(b) && c != '_' && LowerChar(c) != '_'
    requires exists id | id in rows :: rows[id].email == a + [c] + b
    ensures ExistsResult(rows, a + "_" + b) == Ok(true)
    ensures !EqualsIgnoreCase(a + [c] + b, a + "_" + b)
  {
    var id :| id in rows && rows[id].email == a + [c] + b;
    UnderscoreMatchesOneChar(a, c, b);
    ExistsResultMeaning(rows, a + "_" + b);
    assert (a + [c] + b)[|a|] == c && (a + "_" + b)[|a|] == '_';
  }

  /**
   * An email `a` plus one backslash: the query fails exactly when some stored
   * email starts with `a` up to case and goes on after it (with "ab@x"
   * stored, asking for `a` and a backslash fails), and otherwise answers
   * false.
   */
  lemma TrailingBackslashEmail(rows: map<int, User>, a: string)
    requires IsPlain(a)
    ensures ExistsResult(rows, a + [Escape]) ==
      if exists id | id in rows :: ExtendsIgnoringCase(rows[id].email, a)
      then Err(DataAccess(TrailingEscapeMessage))
      else Ok(false)
  {
    forall id | id in rows
      ensures MatchText(rows[id].email, a + [Escape]) != LikeTrue
      ensures MatchText(rows[id].email, a + [Escape]) == EscapeError <==> ExtendsIgnoringCase(rows[id].email, a)
    {
      TrailingEscapeError(rows[id].email, a);
    }
  }

  /** `t` is `a` up to letter case followed by at least one more char. */
  predicate ExtendsIgnoringCase(t: string, a: string) {
    |a| < |t| && EqualsIgnoreCase(t[..|a|], a)
  }

  /**
   * The existence check and the lookup disagree on letter case: with only
   * "test@example.com" stored, "Test@example.com" exists but is not found.
   */
  lemma ExistsButNotFound(rows: map<int, User>, stored: string, asked: string)
    requires IsPlain(asked) && EqualsIgnoreCase(stored, asked) && stored != asked
    requires exists id | id in rows :: rows[id].email == stored
    requires forall id | id in rows :: rows[id].email != asked
    ensures ExistsResult(rows, asked) == Ok(true)
    ensures EmailMatches(rows, asked) == {}
  {
    var id :| id in rows && rows[id].email == stored;
    PlainEmailQueryIgnoresCase(rows, asked);
    assert forall k :: k !in EmailMatches(rows, asked);
  }

  /** The table. */
  class UserRepository {
    var rows: map<int, User>
    var nextId: int

    ghost predicate Valid()
      reads this
    {
      WellNumbered(rows, nextId)
    }

    constructor()
      ensures Valid() && rows == map[] && nextId == 1
    {
      rows := map[];
      nextId := 1;
    }

    /** registerUser: insert the row; the generated id is the next sequence value and is set on the user. */
    method RegisterUser(user: User) returns (saved: User)
      requires Valid()
      modifies this
      ensures Valid()
      ensures saved == user.(id := Some(old(nextId)))
      ensures old(nextId) !in old(rows)
      ensures rows == old(rows)[old(nextId) := saved] && nextId == old(nextId) + 1
    {
      saved := user.(id := Some(nextId));
      rows := rows[nextId := saved];
      nextId := nextId + 1;
    }

    /**
     * findUserByEmail: exact equality. No row is an empty result; more than
     * one is queryForObject's result-size error.
     */
    method FindUserByEmail(email: string) returns (r: Result<Option<User>>)
      requires Valid()
      ensures r == Ok(None) <==> EmailMatches(rows, email) == {}
      ensures r.Err? <==> |EmailMatches(rows, email)| >= 2
      ensures r.Err? ==> r.error == DataAccess(ResultSizeMessage)
      ensures r.Ok? && r.value.Some? ==>
        var u := r.value.value;
        u.id.Some? && EmailMatches(rows, email) == {u.id.value} && rows[u.id.value] == u && u.email == email
    {
      var matches := EmailMatches(rows, email);
      if |matches| >= 2 {
        return Err(DataAccess(ResultSizeMessage));
      }
      if !exists id | id in rows :: rows[id].email == email {
        assert forall k :: k !in matches;
        return Ok(None);
      }
      var id :| id in rows && rows[id].email == email;
      assert matches == {id} by {
        assert id in matches && |matches - {id}| == 0;
      }
      r := Ok(Some(rows[id]));
    }

    /** existsUserWithEmail as written: the email is the ILIKE pattern. */
    method ExistsUserWithEmail(email: string) returns (r: Result<bool>)
      ensures r == ExistsResult(rows, email)
      ensures PatternOk(email) ==> r == Ok(exists id | id in rows :: ILike(rows[id].email, email))
      ensures !PatternOk(email) ==> r != Ok(true)
    {
      ExistsResultMeaning(rows, email);
      if exists id | id in rows :: MatchText(rows[id].email, email) == LikeTrue {
        return Ok(true);
      }
      if exists id | id in rows :: MatchText(rows[id].email, email) == EscapeError {
        return Err(DataAccess(TrailingEscapeMessage));
      }
      r := Ok(false);
    }

    /** The existence check the comment on existsUserWithEmail describes: equality up to letter case. */
    method ExistsUserWithEmailIgnoringCase(email: string) returns (b: bool)
      ensures b <==> ExistsIgnoringCase(rows, email)
    {
      b := exists id | id in rows :: EqualsIgnoreCase(rows[id].email, email);
    }

    /** deleteAllUsers; the id sequence is not reset. */
    method DeleteAllUsers()
      requires Valid()
      modifies this
      ensures Valid() && rows == map[] && nextId == old(nextId)
    {
      rows := map[];
    }
  }
}
