/** The request and response records of the auth endpoints. */
module Dtos {
  import opened Entities

  datatype RegisterDto = RegisterDto(username: string, email: string, password: string, confirmPassword: string)

  datatype LoginDto = LoginDto(username: string, password: string)

  datatype AuthResponseDto = AuthResponseDto(id: int, username: string, email: string, message: string)

  /** `token` is the serialised, signed JWT; its text is opaque here. */
  datatype LoginResponseDto = LoginResponseDto(id: int, username: string, email: string, token: string, expiresAt: Instant)
}
