/** The credential checks the users controller applies to a login or a
    registration before it hands the request to the user service. */
module Credentials {
  import opened Wrappers
  import opened Notes

  const UsernameMinLength: nat := 3
  const UsernameMaxLength: nat := 20
  const EmailMinLength: nat := 3
  const EmailMaxLength: nat := 255
  const PasswordMinLength: nat := 6
  const PasswordMaxLength: nat := 20

  /** A login carries a username and a password; a registration also an
      email. Each may be null in the request body. */
  datatype CredentialRequest =
    | LoginRequest(username: Option<string>, password: Option<string>)
    | RegisterRequest(username: Option<string>, password: Option<string>, email: Option<string>)

  /** The ArgumentException the check throws, one per field. */
  datatype ValidationError = InvalidEmail | InvalidUsername | InvalidPassword

  /** The decimal text of n, as string interpolation writes it. */
  function DecimalText(n: nat): string {
    if n < 10 then [('0' as int + n) as char]
    else DecimalText(n / 10) + DecimalText(n % 10)
  }

  /** The message of the ArgumentException each error throws, with the
      bounds interpolated from the constants. */
  function Message(e: ValidationError): string {
    match e
    case InvalidEmail => "Email must be valid!"
    case InvalidUsername =>
      "Username must be between " + DecimalText(UsernameMinLength) + " and " +
      DecimalText(UsernameMaxLength) + " characters long!"
    case InvalidPassword =>
      "Password must be between " + DecimalText(PasswordMinLength) + " and " +
      DecimalText(PasswordMaxLength) + " characters long!"
  }

  /** The messages as the caller reads them. */
  lemma MessageText()
    ensures Message(InvalidEmail) == "Email must be valid!"
    ensures Message(InvalidUsername) == "Username must be between 3 and 20 characters long!"
    ensures Message(InvalidPassword) == "Password must be between 6 and 20 characters long!"
  {
    assert DecimalText(20) == "20" by {
      assert DecimalText(20) == DecimalText(2) + DecimalText(0);
    }
  }

  /** The message tells which check rejected the request. */
  lemma MessagesIdentifyError(a: ValidationError, b: ValidationError)
    ensures Message(a) == Message(b) <==> a == b
  {
    MessageText();
    if Message(a) == Message(b) {
      assert Message(a)[0] == Message(b)[0];
    }
  }

  /** String.Length: the number of UTF-16 code units, two for a character
      outside the Basic Multilingual Plane. */
  function Utf16Length(s: string): (r: nat)
    ensures |s| <= r <= 2 * |s|
  {
    if s == [] then 0
    else (if s[0] as int >= 0x1_0000 then 2 else 1) + Utf16Length(s[1..])
  }

  /** The lengths of two strings add up. */
  lemma {:induction false} Utf16LengthAppend(s: string, t: string)
    ensures Utf16Length(s + t) == Utf16Length(s) + Utf16Length(t)
    decreases |s|
  {
    if s == [] {
      assert s + t == t;
    } else {
      assert (s + t)[1..] == s[1..] + t;
      Utf16LengthAppend(s[1..], t);
    }
  }

  /** A string of Basic Multilingual Plane characters is as long in code
      units as in characters. */
  lemma {:induction false} Utf16LengthBmp(s: string)
    requires forall i :: 0 <= i < |s| ==> s[i] as int < 0x1_0000
    ensures Utf16Length(s) == |s|
    decreases |s|
  {
    if s != [] {
      Utf16LengthBmp(s[1..]);
    }
  }

  /** The test each field undergoes: neither null nor empty, and between
      min and max code units long. */
  predicate WithinBounds(s: Option<string>, min: int, max: int) {
    !IsNullOrEmpty(s) && min <= Utf16Length(s.value) <= max
  }

  predicate EmailValid(req: CredentialRequest) {
    req.LoginRequest? || WithinBounds(req.email, EmailMinLength, EmailMaxLength)
  }

  predicate UsernameValid(req: CredentialRequest) {
    WithinBounds(req.username, UsernameMinLength, UsernameMaxLength)
  }

  predicate PasswordValid(req: CredentialRequest) {
    WithinBounds(req.password, PasswordMinLength, PasswordMaxLength)
  }

  /** ValidateCredentailRequest: None when the request passes, otherwise
      the error it throws. The email of a registration is checked first,
      then the username, then the password, and the first failure is the
      one reported; a login has no email to check. */
  function ValidateCredentialRequest(req: CredentialRequest): (r: Option<ValidationError>)
    ensures r == Some(InvalidEmail) <==> req.RegisterRequest? && !EmailValid(req)
    ensures r == Some(InvalidUsername) <==> EmailValid(req) && !UsernameValid(req)
    ensures r == Some(InvalidPassword) <==> EmailValid(req) && UsernameValid(req) && !PasswordValid(req)
    ensures r.None? <==> EmailValid(req) && UsernameValid(req) && PasswordValid(req)
  {
    if req.RegisterRequest? && !WithinBounds(req.email, EmailMinLength, EmailMaxLength) then
      Some(InvalidEmail)
    else if !WithinBounds(req.username, UsernameMinLength, UsernameMaxLength) then
      Some(InvalidUsername)
    else if !WithinBounds(req.password, PasswordMinLength, PasswordMaxLength) then
      Some(InvalidPassword)
    else
      None
  }

  /** An accepted request has a username of 2 to 20 characters and a
      password of 3 to 20 characters (a character outside the Basic
      Multilingual Plane counts twice), and an accepted registration an
      email of 2 to 255 characters. */
  lemma AcceptedLengths(req: CredentialRequest)
    requires ValidateCredentialRequest(req).None?
    ensures req.username.Some? && 2 <= |req.username.value| <= 20
    ensures req.password.Some? && 3 <= |req.password.value| <= 20
    ensures req.RegisterRequest? ==> req.email.Some? && 2 <= |req.email.value| <= 255
  {
    assert UsernameValid(req) && PasswordValid(req) && EmailValid(req);
  }

  /** A username or password of Basic Multilingual Plane characters passes
      exactly when its character count is within the bounds. */
  lemma BmpWithinBounds(s: string, min: int, max: int)
    requires 1 <= min
    requires forall i :: 0 <= i < |s| ==> s[i] as int < 0x1_0000
    ensures WithinBounds(Some(s), min, max) <==> min <= |s| <= max
  {
    Utf16LengthBmp(s);
  }

  /** A login is checked as a registration with the same username and
      password and a valid email would be. */
  lemma LoginLikeRegister(username: Option<string>, password: Option<string>, email: Option<string>)
    requires WithinBounds(email, EmailMinLength, EmailMaxLength)
    ensures ValidateCredentialRequest(LoginRequest(username, password)) ==
            ValidateCredentialRequest(RegisterRequest(username, password, email))
  {
  }
}
