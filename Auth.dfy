/** The register and login handlers: field-presence checks, an allow-list of
    two e-mail addresses, and a fixed token. */
module Auth {
  import opened Messages

  /** The only addresses registration accepts. */
  const AllowedEmails: seq<string> := ["eve.holt@reqres.in", "george.bluth@reqres.in"]

  /** The token every successful register and login returns. */
  const Token: string := "QpwL5tke4Pnpja7X4"

  /** The id every successful registration returns. */
  const RegisteredId: int := 4

  const MissingCredentials: string := "Missing email or password"
  const NotAllowed: string := "Note: Only defined users succeed registration"

  datatype Registration = Registration(id: int, token: string)

  /** Both fields present with a truthy value (a missing key reads as None). */
  predicate HasCredentials(body: Body)
  {
    Truthy(Field(body, "email")) && Truthy(Field(body, "password"))
  }

  /** Membership of the submitted value in the allow-list. */
  predicate IsAllowedEmail(email: Json)
  {
    email == JStr(AllowedEmails[0]) || email == JStr(AllowedEmails[1])
  }

  /** `POST /api/register`. */
  function Register(body: Body): (r: Response<Registration>)
    ensures r.Ok? || r.BadRequest?
    ensures r.Ok? <==> HasCredentials(body) && IsAllowedEmail(Field(body, "email"))
    ensures r.Ok? ==> r.body == Registration(RegisteredId, Token)
    ensures !HasCredentials(body) ==> r == BadRequest(MissingCredentials)
    ensures HasCredentials(body) && !r.Ok? ==> r == BadRequest(NotAllowed)
  {
    if !HasCredentials(body) then BadRequest(MissingCredentials)
    else if !IsAllowedEmail(Field(body, "email")) then BadRequest(NotAllowed)
    else Ok(Registration(RegisteredId, Token))
  }

  /** `POST /api/login`: any truthy email and password are accepted. */
  function Login(body: Body): (r: Response<string>)
    ensures r.Ok? || r.BadRequest?
    ensures r.Ok? <==> HasCredentials(body)
    ensures r.Ok? ==> r.body == Token
    ensures !r.Ok? ==> r == BadRequest(MissingCredentials)
  {
    if !HasCredentials(body) then BadRequest(MissingCredentials) else Ok(Token)
  }

  /** Whoever can register can log in, and gets the same token. */
  lemma RegisteredCanLogIn(body: Body)
    requires Register(body).Ok?
    ensures Login(body) == Ok(Register(body).body.token)
  {
  }

  /** Only an address on the allow-list registers, so a login that succeeds for
      a non-listed address is refused at registration with the allow-list message. */
  lemma LoginWiderThanRegister(body: Body)
    requires Login(body).Ok? && !IsAllowedEmail(Field(body, "email"))
    ensures Register(body) == BadRequest(NotAllowed)
  {
  }

  /** The successful registration of the test suite. */
  lemma RegisterEve()
    ensures Register(map["email" := JStr("eve.holt@reqres.in"), "password" := JStr("pistol")])
         == Ok(Registration(4, "QpwL5tke4Pnpja7X4"))
  {
  }

  /** The unsuccessful registration of the test suite: no password. */
  lemma RegisterWithoutPassword()
    ensures Register(map["email" := JStr("sydney@fife")]) == BadRequest(MissingCredentials)
  {
  }
}
