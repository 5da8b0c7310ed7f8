// Go's fixed-width integers, as subset types of int, and the operators on them
// whose meaning differs from Dafny's.  Wrap-around is always written out.
module GoInt {
  type uint8 = x: int | 0 <= x < 0x100
  type byte = uint8
  type uint16 = x: int | 0 <= x < 0x1_0000
  type uint32 = x: int | 0 <= x < 0x1_0000_0000
  type uint64 = x: int | 0 <= x < 0x1_0000_0000_0000_0000

  function Wrap8(x: int): uint8 { x % 0x100 }

  function Wrap16(x: int): uint16 { x % 0x1_0000 }

  function Wrap32(x: int): uint32 { x % 0x1_0000_0000 }

  function Wrap64(x: int): uint64 { x % 0x1_0000_0000_0000_0000 }

  lemma WrapExact(x: nat)
    ensures Wrap64(x) == x <==> x < 0x1_0000_0000_0000_0000
    ensures Wrap32(x) == x <==> x < 0x1_0000_0000
  {
  }

  // Go's % truncates toward zero: the remainder has the sign of the dividend.
  function Rem(a: int, b: int): int
    requires b > 0
  {
    if a >= 0 then a % b else -((-a) % b)
  }

  datatype Option<+T> = None | Some(value: T)

  // The error returns of the parsers, and of the device reads that feed them.
  datatype Error =
    | WrongSize(expected: nat, got: nat)
    | NotMultipleOf(unit: nat, got: nat)
    | ChecksumError
    | DeviceError(code: int)
    | FieldNotFound(name: string)

  // The :- operator returns early on a Failure, like `if err != nil { return err }`.
  datatype Result<+T> = Success(value: T) | Failure(error: Error) {
    predicate IsFailure() { Failure? }

    function PropagateFailure<U>(): Result<U>
      requires Failure?
    {
      Failure(error)
    }

    function Extract(): T
      requires Success?
    {
      value
    }
  }
}
