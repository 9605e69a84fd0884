/** Input checks used by the front end: each returns whether the value is
    acceptable and, when it is not, why. */
module Validators {
  import opened Common

  datatype ValidationError =
    | BelowMinimum(minValue: int)
    | NegativeAddress
    | ExceedsMaximum(address: int, maxAddress: int)
    | NegativeProcessId
    | NegativePageId
    | NegativeSegmentId

  /** The `(is_valid, error_message)` pair every validator returns. */
  datatype Verdict = Verdict(isValid: bool, error: Option<ValidationError>)
  {
    /** A valid verdict never carries a message and an invalid one always does. */
    predicate WellFormed()
    {
      isValid <==> error.None?
    }
  }

  /** `validate_positive_int`. */
  function ValidatePositiveInt(value: int, minValue: int): (r: Verdict)
    ensures r.WellFormed()
    ensures r.isValid <==> value >= minValue
    ensures !r.isValid ==> r.error == Some(BelowMinimum(minValue))
  {
    if value < minValue then Verdict(false, Some(BelowMinimum(minValue)))
    else Verdict(true, None)
  }

  /** `validate_address`: negative addresses are refused first, then those at or
      beyond the optional maximum. */
  function ValidateAddress(address: int, maxAddress: Option<int>): (r: Verdict)
    ensures r.WellFormed()
    ensures r.isValid <==> 0 <= address && (maxAddress.Some? ==> address < maxAddress.value)
    ensures address < 0 ==> r.error == Some(NegativeAddress)
    ensures 0 <= address && maxAddress.Some? && address >= maxAddress.value ==>
              r.error == Some(ExceedsMaximum(address, maxAddress.value))
  {
    if address < 0 then Verdict(false, Some(NegativeAddress))
    else if maxAddress.Some? && address >= maxAddress.value then
      Verdict(false, Some(ExceedsMaximum(address, maxAddress.value)))
    else Verdict(true, None)
  }

  /** `validate_process_id`. */
  function ValidateProcessId(processId: int): (r: Verdict)
    ensures r.WellFormed()
    ensures r.isValid <==> processId >= 0
    ensures !r.isValid ==> r.error == Some(NegativeProcessId)
  {
    if processId < 0 then Verdict(false, Some(NegativeProcessId)) else Verdict(true, None)
  }

  /** `validate_page_id`. */
  function ValidatePageId(pageId: int): (r: Verdict)
    ensures r.WellFormed()
    ensures r.isValid <==> pageId >= 0
    ensures !r.isValid ==> r.error == Some(NegativePageId)
  {
    if pageId < 0 then Verdict(false, Some(NegativePageId)) else Verdict(true, None)
  }

  /** `validate_segment_id`. */
  function ValidateSegmentId(segmentId: int): (r: Verdict)
    ensures r.WellFormed()
    ensures r.isValid <==> segmentId >= 0
    ensures !r.isValid ==> r.error == Some(NegativeSegmentId)
  {
    if segmentId < 0 then Verdict(false, Some(NegativeSegmentId)) else Verdict(true, None)
  }
}
