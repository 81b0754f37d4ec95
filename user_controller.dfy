/**
 * The part of UserController that decides which request bodies are
 * validated: create and put take a @Valid UserCreateRequestDto, patch takes
 * a UserDto that is passed on unchecked.
 */
module UserController {
  import opened Wrappers
  import opened Dates
  import opened Exceptions
  import opened UserDtos
  import opened UserCreateRequests
  import opened UserServices

  /** POST /users: a body that breaks a constraint is rejected before the service runs. */
  method CreateUser(service: UserService, request: UserCreateRequest, today: LocalDate, isEmail: string -> bool)
    returns (r: Result<int, Error>)
    requires service.Valid()
    modifies service
    ensures service.Valid()
    ensures !IsValid(request, today, isEmail) ==>
              r == Failure(ValidationFailed) && service.users == old(service.users) && service.nextId == old(service.nextId)
    ensures IsValid(request, today, isEmail) ==>
              (r.Success? <==>
                 !EmailRegistered(old(service.users), request.email)
                 && CompletedYears(request.birthDate.value, today) >= service.adultAge)
    ensures IsValid(request, today, isEmail) && EmailRegistered(old(service.users), request.email) ==>
              r == Failure(EmailAlreadyRegistered)
    ensures IsValid(request, today, isEmail) && !EmailRegistered(old(service.users), request.email)
            && CompletedYears(request.birthDate.value, today) < service.adultAge ==>
              r == Failure(UnderAge(service.adultAge))
    ensures r.Failure? ==> service.users == old(service.users) && service.nextId == old(service.nextId)
    ensures r.Success? ==> service.users == old(service.users)[r.value := FromRequest(request, r.value)]
  {
    if !IsValid(request, today, isEmail) {
      return Failure(ValidationFailed);
    }
    ValidRequestAgeCheck(service.adultAge, request, today, isEmail);
    r := service.Save(request, today);
  }

  /** PUT /users/{id}: validated like create, then a full replace. */
  method PutUser(service: UserService, id: int, request: UserCreateRequest, today: LocalDate, isEmail: string -> bool)
    returns (r: Outcome<Error>)
    requires service.Valid()
    modifies service
    ensures service.Valid()
    ensures !IsValid(request, today, isEmail) ==> r == Fail(ValidationFailed) && service.users == old(service.users)
    ensures IsValid(request, today, isEmail) ==>
              (r.Pass? <==>
                 id in old(service.users) && CompletedYears(request.birthDate.value, today) >= service.adultAge)
    ensures IsValid(request, today, isEmail) && id !in old(service.users) ==> r == Fail(NotFound(id))
    ensures IsValid(request, today, isEmail) && id in old(service.users)
            && CompletedYears(request.birthDate.value, today) < service.adultAge ==>
              r == Fail(UnderAge(service.adultAge))
    ensures r.Fail? ==> service.users == old(service.users)
    ensures r.Pass? ==> service.users == old(service.users)[id := FromRequest(request, id)]
  {
    if !IsValid(request, today, isEmail) {
      return Fail(ValidationFailed);
    }
    ValidRequestAgeCheck(service.adultAge, request, today, isEmail);
    r := service.PutUpdate(id, request, today);
  }

  /** PATCH /users/{id}: no constraint is checked on the body, so it never fails validation. */
  method PatchUser(service: UserService, id: int, patch: UserDto, today: LocalDate) returns (r: Outcome<Error>)
    requires service.Valid()
    modifies service
    ensures service.Valid()
    ensures r != Fail(ValidationFailed)
    ensures r.Pass? <==> id in old(service.users) && CheckUserAge(service.adultAge, patch.Fields().birthDate, today).Pass?
    ensures id !in old(service.users) ==> r == Fail(NotFound(id))
    ensures id in old(service.users) ==> r == CheckUserAge(service.adultAge, patch.Fields().birthDate, today)
    ensures r.Fail? ==> service.users == old(service.users)
    ensures r.Pass? ==>
              service.users == old(service.users)[id := FromDto(Merge(ToDto(old(service.users)[id]), patch.Fields()), id)]
  {
    r := service.PatchUpdate(id, patch, today);
  }
}
