# User records service layer in Dafny

This project models the service layer of a small Spring application that
keeps user records. It covers three pieces:

- **The patch merge** (`Patcher.internPatcher`). It walks the declared
  fields of `UserDto` and copies each non-null value of the patch onto the
  existing DTO, in place. Null means "keep".
- **The orchestrator** (`UserServiceImpl`). It runs create, patch, put,
  delete and the birth-date range query. The JPA repository becomes a map
  from id to record plus a fresh-id counter. Every check of a write runs
  before its single save.
- **The request constraints** (`UserCreateRequestDto`). These are the Bean
  Validation annotations checked on create and put.

Files, one module each:

- `wrappers.dfy`: `Option` for nullable references, plus `Result` and
  `Outcome` for calls that throw.
- `exceptions.dfy`: the error kinds the service raises.
- `dates.dfy`: `LocalDate` as a valid calendar day. It holds the years part
  of `Period.between`, proved equal to whole completed years whenever the
  birth date is not after today.
- `user_dto.dfy`: the seven nullable fields of a `UserDto`, the field slots
  that reflection walks, the merge, and the `UserDto` class that the
  patcher writes.
- `patcher.dfy`: `InternPatcher`, the loop over the declared fields.
- `user_create_request.dfy`: the request and its validity predicate.
- `user_service.dfy`: the `UserService` class over the map store, the age
  rule and the range query.
- `user_controller.dfy`: which request bodies the boundary validates.
- `scenarios.dfy`: a client that derives the end-to-end behaviour from the
  contracts alone.

Four behaviours of the code are easy to misread. The model follows the
code in each case:

- **Which birth date the patch path checks.** One would expect the merged
  record's age to be checked. The code checks the patch's own birth date
  (`UserServiceImpl.java:68`). The two agree when the patch carries a birth
  date. A patch without one always fails, because `Period.between(null, …)`
  throws (`PatchAgeCheckVersusMerged`; `scenarios.dfy` shows an email-only
  patch failing).
- **The patch's id.** The merge copies `id` like every other field. The
  stored record still gets the path id, because `setId` runs after the
  merge.
- **How age is computed.** The code uses `Period.between(...).getYears()`.
  This equals "completed years" for a birth date not after today. A future
  birth date gives zero or fewer years. With an `adultAge` of 0 or less, a
  future birth date can therefore pass.
- **Email uniqueness on update.** Patch and put do not re-check email
  uniqueness, so they can introduce a duplicate (`PutCanDuplicateEmail`;
  `scenarios.dfy` shows a put doing so).

## Model

| member | source | states |
|---|---|---|
| `UserDtos.Get` | src/main/java/org/example/testassignmentcs/dto/UserDto.java:11-17 | reading a field yields null or a value of that field's declared type (Long, String or LocalDate) |
| `UserDtos.Set` | src/main/java/org/example/testassignmentcs/service/Patcher.java:23 | writing a field sets exactly that field and leaves every other field as it was |
| `UserDtos.Merge` | src/main/java/org/example/testassignmentcs/service/Patcher.java:19-26 | every field of the result is the patch's value when that is non-null and the target's value otherwise, `id` included |
| `UserDtos.MergeFieldsAt` | src/main/java/org/example/testassignmentcs/service/Patcher.java:19-26 | after the loop has visited some fields, exactly the visited fields whose patch value is non-null carry the patch's value; all others keep the target's |
| `UserDtos.MergeFieldsOrderIndependent` | src/main/java/org/example/testassignmentcs/service/Patcher.java:18-26 | visiting the same fields in any order gives the same result, so the order of getDeclaredFields does not matter |
| `UserDtos.DeclaredFieldsMerge` | src/main/java/org/example/testassignmentcs/service/Patcher.java:18-26 | the loop over all declared fields computes the merge |
| `UserDtos.MergeFieldsSelf` | src/main/java/org/example/testassignmentcs/service/Patcher.java:21-23 | merging a DTO onto itself, over any fields, changes nothing |
| `UserDtos.MergeAllNull` | src/test/java/org/example/testassignmentcs/service/PatcherTest.java:73-87 | an all-null patch leaves the target unchanged |
| `UserDtos.MergeFullPatch` | src/test/java/org/example/testassignmentcs/service/PatcherTest.java:41-55 | a patch with every field set, `id` included, replaces every field of the target |
| `UserDtos.MergeOneField` | src/test/java/org/example/testassignmentcs/service/PatcherTest.java:57-71 | a one-field patch changes that field and no other |
| `UserDtos.MergeIdempotent` | src/main/java/org/example/testassignmentcs/service/Patcher.java:19-26 | applying the same patch twice is the same as applying it once |
| `UserDtos.UserDto.constructor` | src/main/java/org/example/testassignmentcs/dto/UserDto.java:10-18 | a new DTO holds exactly the given field values |
| `UserDtos.UserDto.SetField` | src/main/java/org/example/testassignmentcs/service/Patcher.java:23 | Field.set writes one field of the object in place; its new state is the old state with that field set |
| `Patcher.InternPatcher` | src/main/java/org/example/testassignmentcs/service/Patcher.java:11-30 | a null patch fails; a null target fails exactly when the patch has a non-null field; every failure is PatchFailed and writes nothing; on success the target's new state is the merge of its old state and the patch; the patch object is only read |
| `UserCreateRequests.DigitStarIff` | src/main/java/org/example/testassignmentcs/dto/UserCreateRequestDto.java:27 | the pattern `^[0-9]*$` matches exactly the strings made only of digits, the empty string included |
| `UserCreateRequests.IsValidIff` | src/main/java/org/example/testassignmentcs/dto/UserCreateRequestDto.java:12-28 | a request is valid iff email, first name, last name and birth date are non-null; the email passes the format check; both names have 1 to 25 characters; the birth date is strictly before today; a present address has at most 100 characters; a present phone number has at most 20 characters, all digits |
| `UserCreateRequests.EmptyPhoneNumberAllowed` | src/main/java/org/example/testassignmentcs/dto/UserCreateRequestDto.java:26-28 | an empty phone number is accepted exactly when an absent one is |
| `Dates.PeriodYearsIsCompletedYears` | src/main/java/org/example/testassignmentcs/service/impl/UserServiceImpl.java:109-110 | for a birth date not after today, Period's years equal the year difference less one when this year's birthday is still ahead |
| `Dates.FutureBirthDateHasNoYears` | src/main/java/org/example/testassignmentcs/service/impl/UserServiceImpl.java:109-110 | a birth date after today gives Period years of at most zero |
| `Dates.AgeOnAnniversary` | src/main/java/org/example/testassignmentcs/service/impl/UserServiceImpl.java:108-111 | someone born exactly n years before today, n non-negative, is n years old (Feb 29 clamped to Feb 28) |
| `Dates.AgeDayBeforeAnniversary` | src/main/java/org/example/testassignmentcs/service/impl/UserServiceImpl.java:108-111 | someone born one day after that date, n at least 1, is n - 1 years old |
| `UserServices.CheckUserAge` | src/main/java/org/example/testassignmentcs/service/impl/UserServiceImpl.java:108-114 | a null birth date fails; a birth date not after today fails with UnderAge carrying the threshold exactly when the completed years are below adultAge; a future birth date fails when adultAge is positive |
| `UserServices.AdultOnBirthdayPasses` | src/main/java/org/example/testassignmentcs/service/impl/UserServiceImpl.java:108-114 | a birth date exactly adultAge years before today passes the age rule |
| `UserServices.DayBeforeAdultBirthdayFails` | src/main/java/org/example/testassignmentcs/service/impl/UserServiceImpl.java:108-114 | one day later as a birth date fails with UnderAge(adultAge) |
| `UserServices.ValidRequestAgeCheck` | src/main/java/org/example/testassignmentcs/dto/UserCreateRequestDto.java:21-23 | a validated request always has a birth date, so the age rule reduces to comparing its completed years with adultAge |
| `UserServices.PatchAgeCheckVersusMerged` | src/main/java/org/example/testassignmentcs/service/impl/UserServiceImpl.java:67-68 | checking the patch's birth date agrees with checking the merged record's when the patch has one; without one it fails although the merged record has a birth date |
| `UserServices.ToDtoRoundTrip` | src/main/java/org/example/testassignmentcs/mapper/UserMapper.java:11-15 | mapping a stored user to a DTO and back under its own id gives the same user |
| `UserServices.SaveKeepsEmailsUnique` | src/main/java/org/example/testassignmentcs/service/impl/UserServiceImpl.java:51-57 | adding a record whose email no stored record has keeps emails unique across the store |
| `UserServices.PutCanDuplicateEmail` | src/main/java/org/example/testassignmentcs/service/impl/UserServiceImpl.java:75-83 | starting from a store with unique emails, replacing the record at an existing id with a request carrying another record's email (the store `PutUpdate` leaves on success) breaks uniqueness, because put does not check emails |
| `UserServices.FindAllUsersAgeBetween` | src/main/java/org/example/testassignmentcs/service/impl/UserServiceImpl.java:96-105 | fails with InvalidDateRange exactly when `from` is after `to` (`from == to` allowed); otherwise returns one DTO per user the store's query returns, in the same order, each carrying that user's id and all of its other fields |
| `UserServices.InvalidRangeIgnoresStore` | src/main/java/org/example/testassignmentcs/service/impl/UserServiceImpl.java:96-98 | an inverted range fails the same way whatever the store holds |
| `UserServices.UserService.constructor` | src/main/java/org/example/testassignmentcs/service/impl/UserServiceImpl.java:36-47 | the service starts with the given adultAge and an empty, consistent store |
| `UserServices.UserService.Save` | src/main/java/org/example/testassignmentcs/service/impl/UserServiceImpl.java:50-58 | a taken email fails first with EmailAlreadyRegistered; then the age rule's failure is returned; a failure stores nothing; success adds exactly one record under a new id, returns that id and leaves the other records unchanged |
| `UserServices.UserService.PatchUpdate` | src/main/java/org/example/testassignmentcs/service/impl/UserServiceImpl.java:61-72 | an unknown id fails with NotFound; a null patch fails with PatchFailed; otherwise the result is the age rule on the patch's birth date; on success the record at the path id becomes the merge of the stored record and the patch, whatever id the patch carried; a failure stores nothing |
| `UserServices.UserService.PutUpdate` | src/main/java/org/example/testassignmentcs/service/impl/UserServiceImpl.java:75-83 | an unknown id fails with NotFound; otherwise the result is the age rule on the request's birth date; success replaces the record at that id with the request's fields and leaves other ids alone |
| `UserServices.UserService.DeleteById` | src/main/java/org/example/testassignmentcs/service/impl/UserServiceImpl.java:86-88 | the record with that id is removed if present and nothing else changes |
| `UserController.CreateUser` | src/main/java/org/example/testassignmentcs/controller/UserController.java:38-44 | an invalid body is rejected before the service runs; a valid one is stored iff its email is free and its completed years reach adultAge; a taken email fails with EmailAlreadyRegistered, then too few years with UnderAge(adultAge); every failure leaves the store unchanged |
| `UserController.PutUser` | src/main/java/org/example/testassignmentcs/controller/UserController.java:52-56 | an invalid body is rejected before the service runs; a valid one replaces the record iff the id exists and its completed years reach adultAge; an unknown id fails with NotFound, then too few years with UnderAge(adultAge); every failure leaves the store unchanged |
| `UserController.PatchUser` | src/main/java/org/example/testassignmentcs/controller/UserController.java:46-50 | the patch body is not validated; an unknown id fails with NotFound, otherwise the result is the age rule on the patch's birth date; success stores the merge and every failure leaves the store unchanged |

## Left out

- HTTP routing, status codes and the `Location` header of `UserController` are framework plumbing. Only the choice of which bodies are `@Valid` is modelled.
- The JPA repository is a map plus an id counter. `findAllByBirthDateBetween`, with its inclusive bounds and `Pageable` window, is a Spring Data derived query whose code is not shown. It is the `query` parameter of `FindAllUsersAgeBetween`, and its contents are uninterpreted.
- `UserMapper` is MapStruct-generated and its configuration is not shown. It is assumed to copy field for field.
- Reflection details are not modelled: `setAccessible` toggling, and fields other than the seven declared ones. The merge is proved independent of the field order.
- The `@Email` syntax check is Jakarta library logic. It is the `isEmail` parameter.
- `LocalDate.now()` is the `today` parameter. The year range of `LocalDate` is not modelled, and neither is 32-bit overflow of `adultAge` or of Period's years.
- Exception classes and message texts are not modelled; only error kinds are. The tests expect other age messages and exception classes than the code throws.
- Ids are unbounded integers. A null `Long` id is not modelled: the repository rejects it with its own exception.
- `@Size` counts UTF-16 code units. The model counts Dafny characters.
- No concurrency and no transactions are modelled. Last write wins.
- Deleting an unknown id is modelled as a no-op, as Spring Data 3 does it.
- `findAll` is called by the tests and the controller but does not exist in the service shown. `UserService.java` is an interface with no behaviour.
- UserServices.UserService.Save: when several stored users already share the email, the store's `findByEmail` throws its own exception rather than the registration error. The model reports `EmailAlreadyRegistered` in both cases. Either way the save aborts before persisting.
