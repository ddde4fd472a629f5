/** The interface of @simplewebauthn/server that the passkey code calls. The library's
    verifiers are oracles: a verifier is any function from the call it receives to the
    verdict it returns (a thrown error, or `verified` with the extracted information). */
module WebAuthn {
  import opened Wrappers
  import opened Base64

  /** Relying-party configuration (the defaults used when RP_ID and ORIGIN are unset). */
  const RpName: string := "PMJ Secure"
  const RpId: string := "localhost"
  const ExpectedOrigin: string := "http://localhost:5173"

  /** What `generateRegistrationOptions` is asked for, and the challenge it generated. */
  datatype RegistrationOptions = RegistrationOptions(
    challenge: string,
    rpName: string,
    rpId: string,
    userId: string,
    userName: string,
    attestationType: string,
    excludeCredentials: seq<string>,
    residentKey: string,
    userVerification: string)

  /** What `generateAuthenticationOptions` is asked for, and the challenge it generated. */
  datatype AuthenticationOptions = AuthenticationOptions(challenge: string, rpId: string, userVerification: string)

  /** The attestation the browser sent; its content is only read by the verifier. */
  datatype RegistrationResponse = RegistrationResponse(payload: string)

  datatype RegistrationInfo = RegistrationInfo(credentialId: seq<byte>, publicKey: seq<byte>, counter: nat)

  datatype RegistrationCall = RegistrationCall(
    response: RegistrationResponse,
    expectedChallenge: string,
    expectedOrigin: string,
    expectedRpId: string,
    requireUserVerification: bool)

  datatype RegistrationVerdict =
    | RegistrationThrew(message: string)
    | RegistrationReturned(verified: bool, info: Option<RegistrationInfo>)

  type RegistrationVerifier = RegistrationCall -> RegistrationVerdict

  /** The assertion the browser sent: `id` is base64url text; `rawId`, when present, is the
      byte string `Buffer.from(response.rawId)` reads. */
  datatype AuthenticationResponse = AuthenticationResponse(id: string, rawId: Option<seq<byte>>, payload: string)

  /** The stored credential handed to the verifier, with its stored counter. */
  datatype Authenticator = Authenticator(credentialId: seq<byte>, publicKey: seq<byte>, counter: nat)

  datatype AuthenticationCall = AuthenticationCall(
    response: AuthenticationResponse,
    expectedChallenge: string,
    expectedOrigin: string,
    expectedRpId: string,
    authenticator: Authenticator,
    requireUserVerification: bool)

  datatype AuthenticationVerdict =
    | AuthenticationThrew(message: string)
    | AuthenticationReturned(verified: bool, newCounter: nat)

  type AuthenticationVerifier = AuthenticationCall -> AuthenticationVerdict
}
