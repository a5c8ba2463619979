/** What a byte source says about the bytes it can deliver right now. */
module Availability {

  datatype Kind = Exhausted | TemporarilyUnavailable | Error

  datatype ByteAvailability = Count(count: nat) | Unavailable(kind: Kind, errorCode: int)

  predicate HasAvailableBytes(a: ByteAvailability) {
    a.Count? && a.count > 0
  }

  predicate IsExhausted(a: ByteAvailability) {
    a.Unavailable? && a.kind == Exhausted
  }

  const EXHAUSTED_RESULT := Unavailable(Exhausted, 0)
  const TEMPORARILY_UNAVAILABLE_RESULT := Unavailable(TemporarilyUnavailable, 0)

  function ErrorResult(code: int): ByteAvailability {
    Unavailable(Error, code)
  }

  function AvailableBytes(count: nat): ByteAvailability {
    if count > 0 then Count(count) else EXHAUSTED_RESULT
  }

  /** The four classes of results, none of which is another. */
  lemma {:induction false} ResultClasses(count: nat, code: int)
    ensures count > 0 ==> AvailableBytes(count) == Count(count) && HasAvailableBytes(AvailableBytes(count))
    ensures AvailableBytes(0) == Unavailable(Exhausted, 0) && !HasAvailableBytes(Count(0))
    ensures IsExhausted(EXHAUSTED_RESULT) && !HasAvailableBytes(EXHAUSTED_RESULT)
    ensures TEMPORARILY_UNAVAILABLE_RESULT == Unavailable(TemporarilyUnavailable, 0)
    ensures !IsExhausted(TEMPORARILY_UNAVAILABLE_RESULT) && !HasAvailableBytes(TEMPORARILY_UNAVAILABLE_RESULT)
    ensures ErrorResult(code) == Unavailable(Error, code)
    ensures !IsExhausted(ErrorResult(code)) && !HasAvailableBytes(ErrorResult(code)) && !IsExhausted(Count(count))
  {
  }
}
