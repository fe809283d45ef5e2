/**
 Amounts travel as integer text. These are the text-to-text helpers of the matcher, the repository and
 the status endpoint; on the canonical text that the service writes they are plain integer arithmetic,
 which is why the order table below holds amounts as integers.
 */
module AmountText {
  import opened Wrappers
  import opened Numerals

  datatype AmountError = InvalidDecimal | FilledExceedsDesired

  /** orders.addDecimalString */
  function Add(a: string, b: string): Result<string, AmountError> {
    match (ReadInt(a), ReadInt(b))
    case (Some(x), Some(y)) => Ok(IntText(x + y))
    case _ => Err(InvalidDecimal)
  }

  /** orders.compareDecimalStrings */
  function Compare(a: string, b: string): Result<int, AmountError> {
    match (ReadInt(a), ReadInt(b))
    case (Some(x), Some(y)) => Ok(if x < y then -1 else if x == y then 0 else 1)
    case _ => Err(InvalidDecimal)
  }

  /** matching.subtractDecimalString */
  function Subtract(a: string, b: string): Result<string, AmountError> {
    match (ReadInt(a), ReadInt(b))
    case (Some(x), Some(y)) => if x < y then Err(FilledExceedsDesired) else Ok(IntText(x - y))
    case _ => Err(InvalidDecimal)
  }

  /** matching.minDecimalString */
  function Min(a: string, b: string): Result<string, AmountError> {
    match (ReadInt(a), ReadInt(b))
    case (Some(x), Some(y)) => Ok(if x <= y then IntText(x) else IntText(y))
    case _ => Err(InvalidDecimal)
  }

  /** api.remainingAmountString */
  function RemainingAmount(desired: string, filled: string): Result<string, AmountError> {
    match (ReadInt(TrimSpace(desired)), ReadInt(TrimSpace(filled)))
    case (Some(x), Some(y)) => if x - y < 0 then Err(FilledExceedsDesired) else Ok(IntText(x - y))
    case _ => Err(InvalidDecimal)
  }

  /** On the text of integers every helper is the integer operation, and "0" is the text of zero only. */
  lemma TextIsArithmetic(x: int, y: int)
    ensures Add(IntText(x), IntText(y)) == Ok(IntText(x + y))
    ensures Compare(IntText(x), IntText(y)).Ok?
    ensures Compare(IntText(x), IntText(y)).value > 0 <==> x > y
    ensures Compare(IntText(x), IntText(y)).value == 0 <==> x == y
    ensures Min(IntText(x), IntText(y)) == Ok(IntText(if x <= y then x else y))
    ensures Subtract(IntText(x), IntText(y)) == if x >= y then Ok(IntText(x - y)) else Err(FilledExceedsDesired)
    ensures RemainingAmount(IntText(x), IntText(y)) == if x >= y then Ok(IntText(x - y)) else Err(FilledExceedsDesired)
    ensures IntText(x) == "0" <==> x == 0
  {
    hide ReadInt, TrimSpace, IntText;
    ReadIntOfText(x);
    ReadIntOfText(y);
    ZeroText(x);
  }

  lemma ZeroText(x: int)
    ensures IntText(x) == "0" <==> x == 0
  {
    ReadIntOfText(x);
    ReadIntOfText(0);
    assert IntText(0) == "0";
  }
}
