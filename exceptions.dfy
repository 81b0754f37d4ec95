/** The kinds of exception the service layer raises, without their message text. */
module Exceptions {

  datatype Error =
    | EmailAlreadyRegistered   // RegistrationException("This email is already registered")
    | UnderAge(adultAge: int)  // RegistrationException("User's age must be at least: " + adultAge)
    | NotFound(id: int)        // EntityNotFoundException("Can`t find user by id: " + id)
    | InvalidDateRange         // IllegalArgumentException: 'from' after 'to'
    | PatchFailed              // RuntimeException("Error while applying patch")
    | NullBirthDate            // NullPointerException from Period.between(null, today)
    | ValidationFailed         // a @Valid request body that breaks a field constraint
}
