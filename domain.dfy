/** The app's own small domain enums: `Operation`, `BusinessError`, `AppError`. */
module Domain {

  datatype Operation =
    | InitClient | PayloadDecode | OutOfBand | Registration | Authentication | Deregistration
    | PinChange | PasswordChange | DeviceInformationChange | LocalData | UnknownOperation

  datatype BusinessError = AuthenticatorNotFound | DeviceInformationNotFound | AccountsNotFound | LoginFailed

  datatype AppError =
    | LoadAppConfigurationError | ReadLoginConfigurationError | CookieNotFound
    | PinAuthenticatorNotFound | PasswordAuthenticatorNotFound | UnknownError
}
