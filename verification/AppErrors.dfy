/** The error codes the use cases answer with. */
module AppErrors {

  datatype AppError =
    | Internal | NotFound | BadRequest | Forbidden | Conflict
    | InvalidCredentials | SessionRevoked | UserInactive | TenantInactive
}
