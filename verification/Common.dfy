/** Shared by every module: failure-carrying values for what the program expresses with `null`, `undefined`
    and thrown errors, bounds of numbers, and the test for text that is not blank. */
module Common {
  datatype Option<+T> = None | Some(value: T)

  datatype Result<+T, +E> = Ok(value: T) | Err(error: E)

  /** The largest integer a JavaScript number holds exactly together with its successor. */
  const MAX_SAFE_INTEGER: nat := 9_007_199_254_740_991

  function Max(a: int, b: int): int { if a >= b then a else b }

  function Min(a: int, b: int): int { if a <= b then a else b }

  /** Characters that trimming removes. */
  predicate IsBlank(c: char) {
    || '\t' <= c <= '\r' || c == ' ' || c as int == 0xA0 || c as int == 0x1680 || 0x2000 <= c as int <= 0x200A
    || c as int == 0x2028 || c as int == 0x2029 || c as int == 0x202F || c as int == 0x205F || c as int == 0x3000
    || c as int == 0xFEFF
  }

  /** Text that is not empty after trimming. */
  predicate IsText(s: string) { exists i :: 0 <= i < |s| && !IsBlank(s[i]) }

  predicate IsOptionalText(o: Option<string>) { o.None? || IsText(o.value) }
}
