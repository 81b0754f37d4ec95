/**
 * Client code that uses only the contracts above: the end-to-end behaviour of
 * create, patch and the range query on a service whose adult age is 18.
 */
module Scenarios {
  import opened Wrappers
  import opened Dates
  import opened Exceptions
  import opened UserDtos
  import opened UserCreateRequests
  import opened UserServices

  method CreatePatchAndQuery() {
    var today: LocalDate := YearMonthDay(2026, 10, 16);
    var service := new UserService(18);

    // A first user, thirty years old, is stored under a fresh id.
    var request := UserCreateRequest(Some("a@x.com"), Some("John"), Some("Smith"),
                                     Some(YearMonthDay(1996, 10, 16)), None, None);
    assert !EmailRegistered(service.users, request.email);
    var created := service.Save(request, today);
    assert created.Success?;
    var id := created.value;
    assert service.users == map[id := FromRequest(request, id)];

    // The same email a second time is refused and nothing is stored.
    assert service.users[id].email == request.email;
    var again := service.Save(request.(firstName := Some("Jane")), today);
    assert again == Failure(EmailAlreadyRegistered);
    assert service.users == map[id := FromRequest(request, id)];

    // A patch that sets only the email fails the age check on its null birth date.
    var emailOnly := new UserDto(AllNull.(email := Some("b@x.com")));
    var patched := service.PatchUpdate(id, emailOnly, today);
    assert patched == Fail(NullBirthDate);

    // With the birth date repeated in the patch, the email changes and the first name stays.
    var withBirthDate := new UserDto(AllNull.(email := Some("b@x.com"), birthDate := request.birthDate));
    patched := service.PatchUpdate(id, withBirthDate, today);
    assert patched == Pass;
    assert service.users[id].email == Some("b@x.com") && service.users[id].firstName == Some("John");

    // An unknown id is not found and the store is left alone.
    var before := service.users;
    patched := service.PatchUpdate(id + 1, withBirthDate, today);
    assert patched == Fail(NotFound(id + 1)) && service.users == before;

    // A full replace may take another user's email: put does not check it.
    var second := UserCreateRequest(Some("c@x.com"), Some("Ann"), Some("Lee"),
                                    Some(YearMonthDay(1990, 1, 1)), None, None);
    assert !EmailRegistered(service.users, second.email);
    var createdSecond := service.Save(second, today);
    assert createdSecond.Success?;
    var secondId := createdSecond.value;
    var put := service.PutUpdate(secondId, second.(email := Some("b@x.com")), today);
    assert put == Pass;
    assert secondId != id && service.users[secondId].email == service.users[id].email;
    assert !EmailsUnique(service.users);

    // A range whose start is after its end is refused whatever the store holds.
    var store := (from: LocalDate, to: LocalDate) => [FromRequest(request, id)];
    var found := FindAllUsersAgeBetween(YearMonthDay(2000, 1, 1), YearMonthDay(1999, 1, 1), store);
    assert found == Failure(InvalidDateRange);
  }
}
