// Vocabulary shared by every part of the client: bytes, optional values and the
// library's result codes.
module Common {
  datatype Option<+T> = None | Some(value: T)

  type Byte = x: int | 0 <= x < 256

  // Result codes of the public header. `read_complete` also returns raw errno
  // values through the same integer, so a code is an `int` and not an enumeration.
  const IO4E_OK := 0
  const IO4E_FAIL := -1
  const IO4E_ERR_TIMEOUT := 1
  const IO4E_ERR_PROTOBUF := 3
  const IO4E_ERR_CONNECTION_CLOSED := 4

  // Linux value; EWOULDBLOCK is the same number.
  const EAGAIN := 11

  // The numbers that callers see are those of the public header.
  lemma ResultCodes()
    ensures IO4E_OK == 0 && IO4E_FAIL == -1 && IO4E_ERR_TIMEOUT == 1
    ensures IO4E_ERR_PROTOBUF == 3 && IO4E_ERR_CONNECTION_CLOSED == 4
  {
  }
}
