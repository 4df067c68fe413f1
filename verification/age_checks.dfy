/**
 * The two age validators of the exception-handling examples: `checkAge`
 * throws `InvalidAgeException` and `validateAge` throws `CustomException`, both
 * for ages under 18.
 */
module AgeChecks {
  import opened Wrappers
  import opened JavaInt

  /** The threshold both validators test: younger ages are rejected. */
  const VOTING_AGE: Int32 := 18

  datatype InvalidAgeException = InvalidAgeException(message: string)
  datatype CustomException = CustomException(message: string)

  /** `CustomExceptions.checkAge(age)`. */
  function CheckAge(age: Int32): (r: Outcome<InvalidAgeException>)
    ensures r.Fail? <==> age < VOTING_AGE
    ensures r.Fail? ==> r.error.message == "Age is not valid for voting."
  {
    if age < VOTING_AGE then Fail(InvalidAgeException("Age is not valid for voting.")) else Pass
  }

  /** `ThrowThrowsExample.validateAge(age)`. */
  function ValidateAge(age: Int32): (r: Outcome<CustomException>)
    ensures r.Fail? <==> age < VOTING_AGE
    ensures r.Fail? ==> r.error.message == "Age is less than 18."
  {
    if age < VOTING_AGE then Fail(CustomException("Age is less than 18.")) else Pass
  }

  /** The two validators accept exactly the same ages. */
  lemma SameAcceptance(age: Int32)
    ensures CheckAge(age).Pass? <==> ValidateAge(age).Pass?
  {
  }

  /** The boundary: 17 is rejected and 18 accepted, by both. */
  lemma Boundary()
    ensures CheckAge(17).Fail? && CheckAge(18).Pass?
    ensures ValidateAge(17).Fail? && ValidateAge(18).Pass?
  {
  }

  /** The two `main` methods: `checkAge(16)` and `validateAge(15)` throw, and the handlers see these messages. */
  lemma MainCalls()
    ensures CheckAge(16) == Fail(InvalidAgeException("Age is not valid for voting."))
    ensures ValidateAge(15) == Fail(CustomException("Age is less than 18."))
  {
  }
}
