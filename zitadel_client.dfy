/**
 * The request the sync sends to Zitadel to create a human user, as the
 * Zitadel client library defines it.
 */
module ZitadelClient {
  import opened Wrappers

  /** The `Gender` enumeration's "unspecified" value. */
  const GENDER_UNSPECIFIED: int := 0

  datatype Profile = Profile(
    firstName: string,
    lastName: string,
    displayName: string,
    gender: int,
    nickName: string,
    preferredLanguage: string)

  datatype Email = Email(email: string, isEmailVerified: bool)

  datatype Phone = Phone(phone: string, isPhoneVerified: bool)

  /** A link between the new user and an external identity provider. */
  datatype Idp = Idp(configId: string, externalUserId: string, displayName: string)

  datatype ImportHumanUserRequest = ImportHumanUserRequest(
    userName: string,
    profile: Option<Profile>,
    email: Option<Email>,
    phone: Option<Phone>,
    password: string,
    hashedPassword: Option<string>,
    passwordChangeRequired: bool,
    requestPasswordlessRegistration: bool,
    otpCode: string,
    idps: seq<Idp>)
}
