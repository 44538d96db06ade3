/**
 * UserRoleDeserializer: reads a role from a JSON string given without its
 * "ROLE_" prefix, whatever its letter case and surrounding whitespace. The
 * text is trimmed, upper-cased and prefixed with "ROLE_" before the lookup;
 * whitespace inside the text is kept, so it never names a role.
 */
module RoleDeserializer {
  import opened Common
  import opened JavaStrings
  import opened Entities

  const Prefix: string := "ROLE_"

  const ErrorMessage: string := "Invalid user role"

  /** "ROLE_" + value.trim().toUpperCase() */
  function Normalize(raw: string): string {
    Prefix + Upper(Trim(raw))
  }

  /** UserRole.valueOf(name): the constant with exactly that name, if any. */
  function ValueOf(name: string): (r: Option<Role>)
    ensures r.Some? ==> r.value.Name() == name
    ensures r.None? ==> forall role: Role :: role.Name() != name
  {
    if name == RoleEmployee.Name() then Some(RoleEmployee)
    else if name == RoleCustomer.Name() then Some(RoleCustomer)
    else None
  }

  /** deserialize: the role named by the normalised text, else always the same message. */
  function Deserialize(raw: string): (r: Result<Role>)
    ensures r.Ok? <==> exists role: Role :: role.Name() == Normalize(raw)
    ensures r.Ok? ==> r.value.Name() == Normalize(raw)
    ensures r.Err? ==> r.error == IllegalArgument(ErrorMessage)
  {
    match ValueOf(Normalize(raw))
    case Some(role) => Ok(role)
    case None => Err(IllegalArgument(ErrorMessage))
  }

  /** The part of a role's name after "ROLE_": what clients send. */
  function ShortName(role: Role): (s: string)
    ensures Prefix + s == role.Name()
    ensures s != [] && IsAsciiUpper(s[0]) && IsAsciiUpper(s[|s| - 1])
    ensures forall i | 0 <= i < |s| :: IsAsciiUpper(s[i])
  {
    match role
    case RoleEmployee => "EMPLOYEE"
    case RoleCustomer => "CUSTOMER"
  }

  /** The short name of every role reads back as that role. */
  lemma RoundTrip(role: Role)
    ensures Deserialize(ShortName(role)) == Ok(role)
  {
    var s := ShortName(role);
    assert Trim(s) == s by {
      TrimOfTrimmedString(s);
    }
    assert Upper(s) == s by {
      UpperOfUpperCase(s);
    }
  }

  lemma UpperOfUpperCase(s: string)
    requires forall i | 0 <= i < |s| :: IsAsciiUpper(s[i])
    ensures Upper(s) == s
  {
  }

  /**
   * Surrounding whitespace and letter case do not matter: a padded text that
   * agrees with `t` up to case reads exactly as `t` does.
   */
  lemma IgnoresCaseAndPadding(pre: string, s: string, post: string, t: string)
    requires forall i | 0 <= i < |pre| :: IsTrimmable(pre[i])
    requires forall i | 0 <= i < |post| :: IsTrimmable(post[i])
    requires EqualsIgnoreCase(s, t)
    ensures Deserialize(pre + s + post) == Deserialize(t)
  {
    assert Normalize(pre + s + post) == Normalize(s) by {
      TrimIgnoresPadding(pre, s, post);
    }
    assert Upper(Trim(s)) == Upper(Trim(t)) by {
      UpperDecidesCase(s, t);
      TrimUpperCommute(s);
      TrimUpperCommute(t);
    }
  }

  /** "   EmPloYeE " reads as the employee role. */
  lemma PaddedMixedCaseAccepted()
    ensures Deserialize("   EmPloYeE ") == Ok(RoleEmployee)
  {
    SplitPaddedEmployee();
    IgnoresCaseAndPadding("   ", "EmPloYeE", " ", "EMPLOYEE");
    RoundTrip(RoleEmployee);
  }

  lemma SplitPaddedEmployee()
    ensures "   EmPloYeE " == "   " + "EmPloYeE" + " "
    ensures EqualsIgnoreCase("EmPloYeE", "EMPLOYEE")
    ensures ShortName(RoleEmployee) == "EMPLOYEE"
  {
  }

  /** Sending the full constant name fails: the prefix is added a second time. */
  lemma FullNameRejected(role: Role)
    ensures Deserialize(role.Name()) == Err(IllegalArgument(ErrorMessage))
  {
    NameIsOwnTrim(role);
    LongTextRejected(role.Name());
  }

  lemma NameIsOwnTrim(role: Role)
    ensures Trim(role.Name()) == role.Name() && |role.Name()| == 13
  {
    var name := role.Name();
    assert name[0] == 'R' && (name[12] == 'E' || name[12] == 'R');
    TrimOfTrimmedString(name);
  }

  /** A text longer than eight chars after trim() is longer than any role's name once prefixed. */
  lemma LongTextRejected(s: string)
    requires |Trim(s)| > 8
    ensures Deserialize(s) == Err(IllegalArgument(ErrorMessage))
  {
    assert |Normalize(s)| > 13;
    NoNameLongerThan13(Normalize(s));
  }

  lemma NoNameLongerThan13(n: string)
    requires |n| > 13
    ensures ValueOf(n).None?
  {
    forall role: Role ensures role.Name() != n {
      assert |role.Name()| == 13;
    }
  }

  /** Whitespace inside the text is not removed, so such a text never names a role. */
  lemma InnerSpaceRejected(a: string, b: string)
    requires a != [] && !IsTrimmable(a[0])
    requires b != [] && !IsTrimmable(b[|b| - 1])
    ensures Deserialize(a + " " + b) == Err(IllegalArgument(ErrorMessage))
  {
    var n := Normalize(a + " " + b);
    assert |Prefix| + |a| < |n| && n[|Prefix| + |a|] == ' ' by {
      SpaceSurvives(a, b);
    }
    NoNameWithSpace(n, |Prefix| + |a|);
  }

  lemma SpaceSurvives(a: string, b: string)
    requires a != [] && !IsTrimmable(a[0])
    requires b != [] && !IsTrimmable(b[|b| - 1])
    ensures var n := Normalize(a + " " + b); |Prefix| + |a| < |n| && n[|Prefix| + |a|] == ' '
  {
    var s := a + " " + b;
    assert s[0] == a[0] && s[|s| - 1] == b[|b| - 1];
    TrimOfTrimmedString(s);
    assert Upper(s)[|a|] == UpperChar(s[|a|]);
  }

  lemma NoNameWithSpace(n: string, k: int)
    requires 0 <= k < |n| && n[k] == ' '
    ensures ValueOf(n).None?
  {
    forall role: Role ensures role.Name() != n {
      var name := role.Name();
      assert forall i | 0 <= i < |name| :: name[i] != ' ';
    }
  }
}
