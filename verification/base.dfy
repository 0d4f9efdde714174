/** Types shared by every part of the model. */
module Base {
  datatype Option<+T> = None | Some(value: T)

  /** The error kinds of `NovaError`; message texts are not modelled. */
  datatype Error =
    | Corruption
    | Unsupported
    | InvalidArgument
    | InvalidState
    | NotFound
    | AlreadyExists
    | Storage
    | Internal

  datatype Result<+T> = Ok(value: T) | Err(error: Error) {
    predicate IsFailure() {
      Err?
    }

    function PropagateFailure<U>(): Result<U>
      requires Err?
    {
      Err(error)
    }

    function Extract(): T
      requires Ok?
    {
      value
    }
  }

  /** Integer division truncates toward zero. */
  function Truncated(x: int, y: int): int
    requires y != 0
  {
    var magnitude := (if x < 0 then -x else x) / (if y < 0 then -y else y);
    if (x < 0) == (y < 0) then magnitude else -magnitude
  }

  function Pow2(k: nat): (p: nat)
    ensures p >= 1
  {
    if k == 0 then 1 else 2 * Pow2(k - 1)
  }

  type byte = b: int | 0 <= b < 0x100
  type u16 = x: int | 0 <= x < 0x1_0000
  type u32 = x: int | 0 <= x < 0x1_0000_0000
  type u64 = x: int | 0 <= x < 0x1_0000_0000_0000_0000
  type i64 = x: int | -0x8000_0000_0000_0000 <= x < 0x8000_0000_0000_0000

  /** The 16 bytes of a document id, read as one big-endian number: byte order is number order. */
  type NovaId = x: int | 0 <= x < 0x1_0000_0000_0000_0000_0000_0000_0000_0000
}
