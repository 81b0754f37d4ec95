/**
 * UserServiceImpl: the write pipelines (create, patch, put, delete) over a
 * map-backed user store, the minimum-age rule and the birth-date range query.
 * The JPA repository is the map `users` with the id counter `nextId`; the
 * clock is the `today` parameter of each operation.
 */
module UserServices {
  import opened Wrappers
  import opened Dates
  import opened Exceptions
  import opened UserDtos
  import opened UserCreateRequests
  import Patcher

  /** A stored User entity. */
  datatype User = User(
    id: int,
    email: Option<string>,
    firstName: Option<string>,
    lastName: Option<string>,
    birthDate: Option<LocalDate>,
    address: Option<string>,
    phoneNumber: Option<string>)

  /** UserMapper.toDto: a field-for-field copy. */
  function ToDto(u: User): UserFields {
    UserFields(Some(u.id), u.email, u.firstName, u.lastName, u.birthDate, u.address, u.phoneNumber)
  }

  /** UserMapper.toModelFromUserDto followed by setId(id): the DTO's own id is overridden. */
  function FromDto(d: UserFields, id: int): User {
    User(id, d.email, d.firstName, d.lastName, d.birthDate, d.address, d.phoneNumber)
  }

  /** UserMapper.toModel followed by the id the store assigns or setId(id). */
  function FromRequest(r: UserCreateRequest, id: int): User {
    User(id, r.email, r.firstName, r.lastName, r.birthDate, r.address, r.phoneNumber)
  }

  /** Mapping a stored user out and back in under its own id loses nothing. */
  lemma {:induction false} ToDtoRoundTrip(u: User)
    ensures ToDto(u).id == Some(u.id)
    ensures FromDto(ToDto(u), u.id) == u
  {
  }

  /** UserRepository.findByEmail finds a record: some stored user has exactly this email (null matches null). */
  predicate EmailRegistered(users: map<int, User>, email: Option<string>) {
    exists id :: id in users && users[id].email == email
  }

  /** No two stored users share an email. */
  ghost predicate EmailsUnique(users: map<int, User>) {
    forall i, j :: i in users && j in users && i != j ==> users[i].email != users[j].email
  }

  /**
   * checkUserAge: fails on a null birth date (Period.between(null, today)
   * throws), fails with UnderAge when Period's whole years fall short of
   * adultAge, and passes otherwise.
   */
  function CheckUserAge(adultAge: int, birthDate: Option<LocalDate>, today: LocalDate): (r: Outcome<Error>)
    ensures birthDate.None? ==> r == Fail(NullBirthDate)
    ensures birthDate.Some? && !IsAfter(birthDate.value, today) ==>
              r == if CompletedYears(birthDate.value, today) < adultAge then Fail(UnderAge(adultAge)) else Pass
    ensures birthDate.Some? && IsAfter(birthDate.value, today) && adultAge > 0 ==> r == Fail(UnderAge(adultAge))
  {
    match birthDate
    case None => Fail(NullBirthDate)
    case Some(birth) =>
      var userAge := PeriodYears(birth, today);
      assert !IsAfter(birth, today) ==> userAge == CompletedYears(birth, today) by {
        if !IsAfter(birth, today) { PeriodYearsIsCompletedYears(birth, today); }
      }
      assert IsAfter(birth, today) ==> userAge <= 0 by {
        if IsAfter(birth, today) { FutureBirthDateHasNoYears(birth, today); }
      }
      if userAge < adultAge then Fail(UnderAge(adultAge)) else Pass
  }

  /** Someone born exactly adultAge years ago today is old enough. */
  lemma {:induction false} AdultOnBirthdayPasses(adultAge: int, today: LocalDate)
    requires adultAge >= 0
    ensures CheckUserAge(adultAge, Some(MinusYears(today, adultAge)), today) == Pass
  {
    AgeOnAnniversary(today, adultAge);
  }

  /** Someone born one day later than that is not. */
  lemma {:induction false} DayBeforeAdultBirthdayFails(adultAge: int, today: LocalDate)
    requires adultAge >= 1
    ensures CheckUserAge(adultAge, Some(NextDay(MinusYears(today, adultAge))), today) == Fail(UnderAge(adultAge))
  {
    AgeDayBeforeAnniversary(today, adultAge);
  }

  /** A request that passed validation always reaches the age comparison, on completed years. */
  lemma {:induction false} ValidRequestAgeCheck(adultAge: int, request: UserCreateRequest, today: LocalDate, isEmail: string -> bool)
    requires IsValid(request, today, isEmail)
    ensures request.birthDate.Some?
    ensures CheckUserAge(adultAge, request.birthDate, today)
         == if CompletedYears(request.birthDate.value, today) < adultAge then Fail(UnderAge(adultAge)) else Pass
  {
  }

  /**
   * The patch path checks the patch's birth date. It agrees with checking the
   * merged record's when the patch carries one; without one the patch fails
   * although the merged record has a birth date.
   */
  lemma {:induction false} PatchAgeCheckVersusMerged(adultAge: int, existing: UserFields, patch: UserFields, today: LocalDate)
    ensures patch.birthDate.Some? ==>
              CheckUserAge(adultAge, patch.birthDate, today) == CheckUserAge(adultAge, Merge(existing, patch).birthDate, today)
    ensures patch.birthDate.None? && existing.birthDate.Some? ==>
              CheckUserAge(adultAge, patch.birthDate, today) == Fail(NullBirthDate)
              && CheckUserAge(adultAge, Merge(existing, patch).birthDate, today) != Fail(NullBirthDate)
  {
  }

  /** A successful create keeps emails unique: the new email was checked against every stored one. */
  lemma {:induction false} SaveKeepsEmailsUnique(users: map<int, User>, id: int, request: UserCreateRequest)
    requires EmailsUnique(users)
    requires id !in users
    requires !EmailRegistered(users, request.email)
    ensures EmailsUnique(users[id := FromRequest(request, id)])
  {
    var users' := users[id := FromRequest(request, id)];
    forall i, j | i in users' && j in users' && i != j
      ensures users'[i].email != users'[j].email
    {
      if i == id {
        assert users'[j] == users[j];
      } else if j == id {
        assert users'[i] == users[i];
      }
    }
  }

  /**
   * A full replace is not checked against other records' emails: replacing the
   * record at an existing id with a request that carries another record's email,
   * which is the store PutUpdate leaves on success, breaks uniqueness.
   */
  lemma {:induction false} PutCanDuplicateEmail(request: UserCreateRequest, target: User, other: User)
    requires target.id != other.id
    requires target.email != other.email
    requires request.email == other.email
    ensures var users := map[target.id := target, other.id := other];
            EmailsUnique(users)
            && target.id in users
            && !EmailsUnique(users[target.id := FromRequest(request, target.id)])
  {
    var users := map[target.id := target, other.id := other];
    forall i, j | i in users && j in users && i != j
      ensures users[i].email != users[j].email
    {
      assert i == target.id || i == other.id;
      assert j == target.id || j == other.id;
    }
    var users' := users[target.id := FromRequest(request, target.id)];
    assert users'[target.id].email == users'[other.id].email;
  }

  /**
   * findAllUsersAgeBetween: rejects a range whose start is after its end
   * before querying the store; otherwise maps the store's page of users, as
   * returned by `query`, to DTOs one for one and in order.
   */
  function FindAllUsersAgeBetween(from: LocalDate, to: LocalDate, query: (LocalDate, LocalDate) -> seq<User>)
    : (r: Result<seq<UserFields>, Error>)
    ensures r.Failure? <==> IsAfter(from, to)
    ensures r.Failure? ==> r.error == InvalidDateRange
    ensures r.Success? ==>
              |r.value| == |query(from, to)|
              && forall i :: 0 <= i < |r.value| ==>
                   r.value[i].id == Some(query(from, to)[i].id)
                   && FromDto(r.value[i], query(from, to)[i].id) == query(from, to)[i]
  {
    if IsAfter(from, to) then
      Failure(InvalidDateRange)
    else
      var users := query(from, to);
      Success(seq(|users|, i requires 0 <= i < |users| => ToDto(users[i])))
  }

  /** The range check does not depend on what the store holds. */
  lemma {:induction false} InvalidRangeIgnoresStore(from: LocalDate, to: LocalDate, q1: (LocalDate, LocalDate) -> seq<User>, q2: (LocalDate, LocalDate) -> seq<User>)
    requires IsAfter(from, to)
    ensures FindAllUsersAgeBetween(from, to, q1) == FindAllUsersAgeBetween(from, to, q2) == Failure(InvalidDateRange)
  {
  }

  /** The service with its store: stored records keyed by id, and the next id the store hands out. */
  class UserService {
    const adultAge: int
    var users: map<int, User>
    var nextId: int

    /** Every record is stored under its own id, and every id is below the next fresh one. */
    ghost predicate Valid()
      reads this
    {
      forall id :: id in users ==> users[id].id == id && id < nextId
    }

    constructor (adultAge: int)
      ensures Valid()
      ensures this.adultAge == adultAge && users == map[]
    {
      this.adultAge := adultAge;
      users := map[];
      nextId := 1;
    }

    /**
     * save: fails if the email is taken, then if the age rule fails; only then
     * stores the request under a fresh id and returns that id.
     */
    method Save(request: UserCreateRequest, today: LocalDate) returns (r: Result<int, Error>)
      requires Valid()
      modifies this
      ensures Valid()
      ensures EmailRegistered(old(users), request.email) ==> r == Failure(EmailAlreadyRegistered)
      ensures !EmailRegistered(old(users), request.email) && CheckUserAge(adultAge, request.birthDate, today).Fail? ==>
                r == Failure(CheckUserAge(adultAge, request.birthDate, today).error)
      ensures r.Success? <==>
                !EmailRegistered(old(users), request.email) && CheckUserAge(adultAge, request.birthDate, today).Pass?
      ensures r.Failure? ==> users == old(users) && nextId == old(nextId)
      ensures r.Success? ==>
                r.value !in old(users)
                && users == old(users)[r.value := FromRequest(request, r.value)]
                && nextId > old(nextId)
    {
      if EmailRegistered(users, request.email) {
        return Failure(EmailAlreadyRegistered);
      }
      var ageCheck := CheckUserAge(adultAge, request.birthDate, today);
      if ageCheck.Fail? {
        return Failure(ageCheck.error);
      }
      var id := nextId;
      users := users[id := FromRequest(request, id)];
      nextId := nextId + 1;
      return Success(id);
    }

    /**
     * patchUpdate: fails if the id is unknown; merges the patch onto a DTO copy
     * of the stored record; checks the age of the PATCH's birth date; stores
     * the merged record under the path id, whatever id the patch carried.
     */
    method PatchUpdate(id: int, patch: UserDto?, today: LocalDate) returns (r: Outcome<Error>)
      requires Valid()
      modifies this
      ensures Valid()
      ensures id !in old(users) ==> r == Fail(NotFound(id))
      ensures id in old(users) && patch == null ==> r == Fail(PatchFailed)
      ensures id in old(users) && patch != null ==> r == CheckUserAge(adultAge, patch.Fields().birthDate, today)
      ensures patch != null && patch.Fields().birthDate.None? ==> r.Fail?
      ensures r.Fail? ==> users == old(users)
      ensures r.Pass? ==>
                patch != null && id in old(users)
                && users == old(users)[id := FromDto(Merge(ToDto(old(users)[id]), patch.Fields()), id)]
      ensures nextId == old(nextId)
    {
      if id !in users {
        return Fail(NotFound(id));
      }
      var existUserDto := new UserDto(ToDto(users[id]));
      var patched := Patcher.InternPatcher(existUserDto, patch);
      if patched.Fail? {
        return patched;
      }
      var ageCheck := CheckUserAge(adultAge, patch.Fields().birthDate, today);
      if ageCheck.Fail? {
        return ageCheck;
      }
      users := users[id := FromDto(existUserDto.Fields(), id)];
      return Pass;
    }

    /** putUpdate: fails if the id is unknown, then on the age rule; otherwise replaces the record at id. */
    method PutUpdate(id: int, request: UserCreateRequest, today: LocalDate) returns (r: Outcome<Error>)
      requires Valid()
      modifies this
      ensures Valid()
      ensures id !in old(users) ==> r == Fail(NotFound(id))
      ensures id in old(users) ==> r == CheckUserAge(adultAge, request.birthDate, today)
      ensures r.Fail? ==> users == old(users)
      ensures r.Pass? ==> users == old(users)[id := FromRequest(request, id)]
      ensures nextId == old(nextId)
    {
      if id !in users {
        return Fail(NotFound(id));
      }
      var ageCheck := CheckUserAge(adultAge, request.birthDate, today);
      if ageCheck.Fail? {
        return ageCheck;
      }
      users := users[id := FromRequest(request, id)];
      return Pass;
    }

    /** deleteById: removes the record if there is one; an unknown id is ignored. */
    method DeleteById(id: int)
      requires Valid()
      modifies this
      ensures Valid()
      ensures users == old(users) - {id}
      ensures nextId == old(nextId)
    {
      users := users - {id};
    }
  }
}
