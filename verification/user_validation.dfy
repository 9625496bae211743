/** `UserValidationService`: the check a registration request passes before
    anything is saved. */
module UserValidation {
  import opened Base
  import opened Tables
  import opened Entities
  import opened Dtos
  import UserService

  /** The message key of the RegistrationException for an e-mail in use. */
  const EMAIL_ALREADY_EXISTS: string := "email_already_exists"

  /** `validateUser`: only the request's e-mail is checked, and a request
      whose e-mail some user already has is rejected with a
      RegistrationException; any other request passes. */
  function ValidateUser(t: Table<User>, req: RegistrationRequest): (r: Result<()>)
    ensures r.Err? <==> exists id :: id in t.rows && t.rows[id].email == req.email
    ensures r.Err? ==> r.error == Registration(EMAIL_ALREADY_EXISTS)
  {
    if UserService.ExistsByEmail(t, req.email) then Err(Registration(EMAIL_ALREADY_EXISTS)) else Ok(())
  }

  /** The name and password of the request play no part in the check. */
  lemma OnlyEmailChecked(t: Table<User>, a: RegistrationRequest, b: RegistrationRequest)
    requires a.email == b.email
    ensures ValidateUser(t, a) == ValidateUser(t, b)
  {
  }
}
