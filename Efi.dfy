/** UEFI status codes, fixed-width unsigned integers and the Option/Result
    wrappers shared by the secure-partition entry point and its allocator. */
module Efi {

  const Pow32: nat := 0x1_0000_0000
  const Pow64: nat := 0x1_0000_0000_0000_0000

  type u8 = x: int | 0 <= x < 0x100
  type u16 = x: int | 0 <= x < 0x1_0000
  type u32 = x: int | 0 <= x < 0x1_0000_0000
  type u64 = x: int | 0 <= x < 0x1_0000_0000_0000_0000

  /** Unsigned 32-bit arithmetic: the value modulo 2^32. */
  function Wrap32(x: int): u32 { x % Pow32 }

  /** Unsigned 64-bit (UINTN) arithmetic: the value modulo 2^64. */
  function Wrap64(x: int): u64 { x % Pow64 }

  /** EFI_PAGE_SIZE: 4 KiB. */
  const EfiPageSize: nat := 4096

  function Min(a: nat, b: nat): nat { if a <= b then a else b }

  /** The code of an EFI warning, ENCODE_WARNING (code): code 0 would be
      EFI_SUCCESS. */
  type WarningCode = c: nat | c != 0 witness 1

  /** The code of an error status other than the three named ones,
      ENCODE_ERROR (code): EFI_INVALID_PARAMETER is code 2, EFI_UNSUPPORTED
      code 3 and EFI_NOT_FOUND code 14, so each status has one spelling. */
  type OtherErrorCode = c: nat | c != 2 && c != 3 && c != 14 witness 1

  /** EFI_STATUS. Warnings are statuses other than EFI_SUCCESS for which
      EFI_ERROR is false; the three named errors are the ones this code
      produces or tests for, and every other error is OtherError. */
  datatype Status =
    | Success
    | Warning(warningCode: WarningCode)
    | Unsupported
    | InvalidParameter
    | NotFound
    | OtherError(errorCode: OtherErrorCode)

  /** EFI_ERROR (Status). */
  predicate IsError(s: Status) {
    !s.Success? && !s.Warning?
  }

  datatype Option<T> = None | Some(value: T)

  /** A value, or the status a failing step returned in its place. */
  datatype Result<T> = Ok(value: T) | Err(status: Status) {
    predicate IsFailure() { Err? }

    function PropagateFailure<U>(): Result<U>
      requires Err?
    {
      Err(status)
    }

    function Extract(): T
      requires Ok?
    {
      value
    }
  }
}
