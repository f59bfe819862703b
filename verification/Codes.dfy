/** Error values (codes/codes.go). */
module Codes {
  type Code = i: int | 0 <= i < 0x1_0000_0000

  const OK: Code := 0
  const SERVER_INTERNAL_ERROR: Code := 100
  const CLIENT_MSG_ERROR: Code := 301

  datatype Kind = FrameworkError | BusyError

  /** `Coded` is a `*codes.Error`; `Foreign` is any other Go error, known by its text. */
  datatype Error = Coded(code: Code, kind: Kind, message: string) | Foreign(text: string)

  const SERVER_INTERNAL_MESSAGE := "server internal error"
}
