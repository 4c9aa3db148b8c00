/** The FluentValidation rule sets for the two auth requests. Each rule
    chain reports every component that fails (the default cascade mode), and
    the chains are evaluated in declaration order, so the failures come out
    field by field. The request is valid exactly when the list is empty.
    Message texts are not modelled, only which rule of which field failed. */
module Validators {
  import opened Dtos
  import Store

  datatype Field = UsernameField | EmailField | PasswordField | ConfirmPasswordField

  datatype Rule =
    | NotEmpty
    | Length(min: nat, max: nat)
    | EmailAddress
    | MinimumLength(min: nat)
    | EqualToPassword

  datatype ValidationFailure = ValidationFailure(field: Field, rule: Rule)

  const MinUsernameLength: nat := 3
  const MaxUsernameLength: nat := 30
  const MinPasswordLength: nat := 8

  /** `char.IsWhiteSpace`: the Unicode space, line and paragraph separators
      plus U+0009..U+000D and U+0085. */
  predicate IsWhiteSpace(c: char) {
    || '\t' <= c <= '\r' || c == ' ' || c == '\U{0085}' || c == '\U{00A0}' || c == '\U{1680}'
    || '\U{2000}' <= c <= '\U{200A}' || c == '\U{2028}' || c == '\U{2029}' || c == '\U{202F}'
    || c == '\U{205F}' || c == '\U{3000}'
  }

  /** `NotEmpty()` on a string fails for the empty string and for a string
      of white space only. */
  predicate IsBlank(s: string) {
    forall i | 0 <= i < |s| :: IsWhiteSpace(s[i])
  }

  /** One component of a rule chain: no failure when `ok`. */
  function Check(ok: bool, field: Field, rule: Rule): seq<ValidationFailure> {
    if ok then [] else [ValidationFailure(field, rule)]
  }

  /** `RegisterDtoValidator`. The e-mail syntax check of `EmailAddress()` is
      the library's and is taken as the parameter `isEmail`. The request
      passes exactly when the username is 3..30 characters and not blank,
      the e-mail is not blank and well formed, the password has at least 8
      characters and is not blank, and the confirmation repeats it. The
      length rule is 3..30 although its message text says 3-50: the rule
      decides, so a 31-character username is refused. */
  function ValidateRegister(dto: RegisterDto, isEmail: string -> bool): (errors: seq<ValidationFailure>)
    ensures errors == [] <==>
      && !IsBlank(dto.username) && MinUsernameLength <= |dto.username| <= MaxUsernameLength
      && !IsBlank(dto.email) && isEmail(dto.email)
      && !IsBlank(dto.password) && MinPasswordLength <= |dto.password|
      && dto.confirmPassword == dto.password
    ensures dto.confirmPassword != dto.password ==> ValidationFailure(ConfirmPasswordField, EqualToPassword) in errors
    ensures dto.username == "" ==>
      2 <= |errors| && errors[..2] == [ValidationFailure(UsernameField, NotEmpty), ValidationFailure(UsernameField, Length(3, 30))]
    ensures |dto.username| == 31 ==> ValidationFailure(UsernameField, Length(3, 30)) in errors
    ensures |dto.password| == 8 && !IsBlank(dto.password) ==> forall e | e in errors :: e.field != PasswordField
    ensures errors == [] ==> |dto.username| <= Store.MaxUsernameLength
  {
    Check(!IsBlank(dto.username), UsernameField, NotEmpty)
    + Check(MinUsernameLength <= |dto.username| <= MaxUsernameLength, UsernameField, Length(MinUsernameLength, MaxUsernameLength))
    + Check(!IsBlank(dto.email), EmailField, NotEmpty)
    + Check(isEmail(dto.email), EmailField, EmailAddress)
    + Check(!IsBlank(dto.password), PasswordField, NotEmpty)
    + Check(|dto.password| >= MinPasswordLength, PasswordField, MinimumLength(MinPasswordLength))
    + Check(dto.confirmPassword == dto.password, ConfirmPasswordField, EqualToPassword)
  }

  /** `LoginDtoValidator`: a login request passes exactly when neither field
      is blank. There is no length rule, so a one-character password passes. */
  function ValidateLogin(dto: LoginDto): (errors: seq<ValidationFailure>)
    ensures errors == [] <==> !IsBlank(dto.username) && !IsBlank(dto.password)
    ensures dto.username == "" ==> |errors| >= 1 && errors[0] == ValidationFailure(UsernameField, NotEmpty)
    ensures dto.password == "" ==> ValidationFailure(PasswordField, NotEmpty) in errors
    ensures |dto.password| == 1 && !IsWhiteSpace(dto.password[0]) && !IsBlank(dto.username) ==> errors == []
  {
    Check(!IsBlank(dto.username), UsernameField, NotEmpty)
    + Check(!IsBlank(dto.password), PasswordField, NotEmpty)
  }

  predicate RegisterValid(dto: RegisterDto, isEmail: string -> bool) {
    ValidateRegister(dto, isEmail) == []
  }

  predicate LoginValid(dto: LoginDto) {
    ValidateLogin(dto) == []
  }
}
