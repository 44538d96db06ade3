/**
 * The request bodies and their Bean Validation constraints. The controllers
 * validate a body before calling a service and answer 400 with the messages
 * of the violated constraints; a body with any violation never reaches the
 * service. Each `...Violations` function gives that set of messages, and the
 * services take "no violation" as their precondition where they rely on it.
 */
module Requests {
  import opened Common
  import opened JavaStrings
  import opened Entities

  datatype DvdCreateRequest = DvdCreateRequest(title: Option<string>, genre: Option<Genre>, quantity: Option<int>)

  /** A partial update: a null field is left as it is. */
  datatype DvdUpdateRequest = DvdUpdateRequest(quantity: Option<int>, genre: Option<Genre>)

  datatype RegisterRequest = RegisterRequest(firstname: Option<string>, lastname: Option<string>,
                                             email: Option<string>, password: Option<string>,
                                             role: Option<Role>)

  /** One constructor per constraint a request body can violate. */
  datatype Violation =
    | TitleRequired | GenreRequired | QuantityRequired | QuantityNotPositive
    | QuantityNotPositiveDefault
    | FirstNameRequired | LastNameRequired | EmailRequired | PasswordRequired | RoleRequired
  {
    /** The message the constraint's annotation carries. */
    function Message(): string {
      match this
      case TitleRequired => "The title is required"
      case GenreRequired => "The genre is required"
      case QuantityRequired => "The quantity is required"
      case QuantityNotPositive => "The quantity must be a positive number"
      // @Positive without a message of its own, on DvdUpdateRequest
      case QuantityNotPositiveDefault => "must be greater than 0"
      case FirstNameRequired => "The First Name field is required"
      case LastNameRequired => "The Last Name field is required"
      case EmailRequired => "The Email field is required"
      case PasswordRequired => "The Password field is required"
      case RoleRequired => "The Role field is required"
    }
  }

  /** The violation `c`, when `violated`. */
  function Flag(violated: bool, c: Violation): (v: set<Violation>)
    ensures c in v <==> violated
    ensures v <= {c}
  {
    if violated then {c} else {}
  }

  /** @NotBlank title, @NotNull genre, @NotNull and @Positive quantity (null passes @Positive). */
  function CreateViolations(r: DvdCreateRequest): (v: set<Violation>)
    ensures TitleRequired in v <==> !NotBlank(r.title)
    ensures GenreRequired in v <==> r.genre.None?
    ensures QuantityRequired in v <==> r.quantity.None?
    ensures QuantityNotPositive in v <==> r.quantity.Some? && r.quantity.value <= 0
    ensures v <= {TitleRequired, GenreRequired, QuantityRequired, QuantityNotPositive}
  {
    Flag(!NotBlank(r.title), TitleRequired)
    + Flag(r.genre.None?, GenreRequired)
    + Flag(r.quantity.None?, QuantityRequired)
    + Flag(r.quantity.Some? && r.quantity.value <= 0, QuantityNotPositive)
  }

  /** What the create service dereferences: title, genre and quantity are all non-null. */
  predicate CreateComplete(r: DvdCreateRequest) {
    r.title.Some? && r.genre.Some? && r.quantity.Some?
  }

  /** A create body that passes validation is complete, has a title that is not blank and a positive quantity. */
  lemma ValidCreateRequest(r: DvdCreateRequest)
    requires CreateViolations(r) == {}
    ensures CreateComplete(r) && Trim(r.title.value) != [] && r.quantity.value > 0
  {
    assert TitleRequired !in CreateViolations(r);
    assert QuantityRequired !in CreateViolations(r);
    assert QuantityNotPositive !in CreateViolations(r);
  }

  /** A null quantity is reported as missing only, never also as not positive. */
  lemma NullQuantityIsOnlyMissing(title: string, genre: Genre)
    requires Trim(title) != []
    ensures CreateViolations(DvdCreateRequest(Some(title), Some(genre), None)) == {QuantityRequired}
  {
  }

  /** A present quantity of 0 or -1 violates @Positive and nothing else. */
  lemma NonPositiveQuantityRejected(title: string, genre: Genre, q: int)
    requires Trim(title) != [] && q <= 0
    ensures CreateViolations(DvdCreateRequest(Some(title), Some(genre), Some(q))) == {QuantityNotPositive}
  {
  }

  /** @Positive quantity; both fields may be null. */
  function UpdateViolations(r: DvdUpdateRequest): (v: set<Violation>)
    ensures v == {} <==> (r.quantity.None? || r.quantity.value > 0)
    ensures v <= {QuantityNotPositiveDefault}
  {
    if r.quantity.Some? && r.quantity.value <= 0 then {QuantityNotPositiveDefault} else {}
  }

  /** An empty patch passes validation; the service is the one to reject it. */
  lemma EmptyPatchPassesValidation()
    ensures UpdateViolations(DvdUpdateRequest(None, None)) == {}
  {
  }

  /** @NotBlank on the four strings, @NotNull on the role. */
  function RegisterViolations(r: RegisterRequest): (v: set<Violation>)
    ensures FirstNameRequired in v <==> !NotBlank(r.firstname)
    ensures LastNameRequired in v <==> !NotBlank(r.lastname)
    ensures EmailRequired in v <==> !NotBlank(r.email)
    ensures PasswordRequired in v <==> !NotBlank(r.password)
    ensures RoleRequired in v <==> r.role.None?
    ensures v <= {FirstNameRequired, LastNameRequired, EmailRequired, PasswordRequired, RoleRequired}
  {
    Flag(!NotBlank(r.firstname), FirstNameRequired)
    + Flag(!NotBlank(r.lastname), LastNameRequired)
    + Flag(!NotBlank(r.email), EmailRequired)
    + Flag(!NotBlank(r.password), PasswordRequired)
    + Flag(r.role.None?, RoleRequired)
  }

  /** A registration body that passes validation has every field present and no blank string. */
  lemma ValidRegisterRequest(r: RegisterRequest)
    requires RegisterViolations(r) == {}
    ensures r.firstname.Some? && r.lastname.Some? && r.email.Some? && r.password.Some? && r.role.Some?
    ensures Trim(r.firstname.value) != [] && Trim(r.lastname.value) != []
    ensures Trim(r.email.value) != [] && Trim(r.password.value) != []
  {
    assert FirstNameRequired !in RegisterViolations(r);
    assert LastNameRequired !in RegisterViolations(r);
    assert EmailRequired !in RegisterViolations(r);
    assert PasswordRequired !in RegisterViolations(r);
    assert RoleRequired !in RegisterViolations(r);
  }
}
