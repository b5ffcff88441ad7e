// Shared value types, the bounds of the machine integers the wire format uses, and
// the separators of src/const.rs.
module Common {

  datatype Option<+T> = None | Some(value: T) {
    function GetOr(default: T): T {
      if Some? then value else default
    }
  }

  datatype Result<+T> = Ok(value: T) | Err

  const U16_LIMIT: nat := 0x1_0000
  const U32_LIMIT: nat := 0x1_0000_0000
  const U64_LIMIT: nat := 0x1_0000_0000_0000_0000
  const PATH_SEP: char := '/'
  const OBJ_SEP: char := '·'
  const RUNTIME_SEP: char := '‥'

  const I32_MAX: nat := 0x7FFF_FFFF
  const I64_MIN: int := -0x8000_0000_0000_0000
  const I64_MAX: nat := 0x7FFF_FFFF_FFFF_FFFF
}
