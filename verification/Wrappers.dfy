/** The option and result types the other modules share. */
module Wrappers {

  datatype Option<+T> = None | Some(value: T) {
    function GetOr(default: T): T {
      if Some? then value else default
    }
  }

  /** An `InvalidPacket` error of the program, with its message. */
  datatype Error = InvalidPacket(reason: string)

  /** A number as it is printed into a message. */
  function Decimal(n: nat): string {
    (if n < 10 then "" else Decimal(n / 10)) + [(('0' as int) + n % 10) as char]
  }

  datatype Result<+T> = Ok(value: T) | Err(error: Error)
}
