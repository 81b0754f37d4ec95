/**
 * UserDto: the seven nullable fields of a user as the service exchanges them,
 * its declared-field slots as reflection sees them, and the null-means-keep
 * merge of a patch onto an existing record.
 */
module UserDtos {
  import opened Wrappers
  import opened Dates

  /** The declared fields of UserDto. */
  datatype Field = Id | Email | FirstName | LastName | BirthDate | Address | PhoneNumber

  /** The fields in declaration order, as getDeclaredFields lists them. */
  const DeclaredFields: seq<Field> := [Id, Email, FirstName, LastName, BirthDate, Address, PhoneNumber]

  lemma DeclaredFieldsComplete(f: Field)
    ensures f in DeclaredFields
  {
  }

  /** A non-null field value as Field.get hands it out: a Long, a String or a LocalDate. */
  datatype Value = LongValue(long: int) | StringValue(str: string) | DateValue(date: LocalDate)

  /** Whether a value has the declared type of a field. */
  predicate HasType(f: Field, v: Value) {
    match f
    case Id => v.LongValue?
    case BirthDate => v.DateValue?
    case _ => v.StringValue?
  }

  /** The state of one UserDto; None is a null field. */
  datatype UserFields = UserFields(
    id: Option<int>,
    email: Option<string>,
    firstName: Option<string>,
    lastName: Option<string>,
    birthDate: Option<LocalDate>,
    address: Option<string>,
    phoneNumber: Option<string>)

  /** `new UserDto()`: every field null. */
  const AllNull := UserFields(None, None, None, None, None, None, None)

  function StringField(s: Option<string>): Option<Value> {
    match s
    case Some(x) => Some(StringValue(x))
    case None => None
  }

  /** Field.get: the value of field f, boxed, or null. */
  function Get(u: UserFields, f: Field): (r: Option<Value>)
    ensures r.Some? ==> HasType(f, r.value)
  {
    match f
    case Id => (match u.id case Some(n) => Some(LongValue(n)) case None => None)
    case Email => StringField(u.email)
    case FirstName => StringField(u.firstName)
    case LastName => StringField(u.lastName)
    case BirthDate => (match u.birthDate case Some(d) => Some(DateValue(d)) case None => None)
    case Address => StringField(u.address)
    case PhoneNumber => StringField(u.phoneNumber)
  }

  /** Field.set with a non-null value of the field's type. */
  function Set(u: UserFields, f: Field, v: Value): (r: UserFields)
    requires HasType(f, v)
    ensures Get(r, f) == Some(v)
    ensures forall g :: g != f ==> Get(r, g) == Get(u, g)
  {
    match f
    case Id => u.(id := Some(v.long))
    case Email => u.(email := Some(v.str))
    case FirstName => u.(firstName := Some(v.str))
    case LastName => u.(lastName := Some(v.str))
    case BirthDate => u.(birthDate := Some(v.date))
    case Address => u.(address := Some(v.str))
    case PhoneNumber => u.(phoneNumber := Some(v.str))
  }

  /** Two states that agree on every declared field are the same state. */
  lemma {:induction false} FieldsExtensional(u: UserFields, w: UserFields)
    requires forall f :: Get(u, f) == Get(w, f)
    ensures u == w
  {
    assert Get(u, Id) == Get(w, Id);
    assert Get(u, Email) == Get(w, Email);
    assert Get(u, FirstName) == Get(w, FirstName);
    assert Get(u, LastName) == Get(w, LastName);
    assert Get(u, BirthDate) == Get(w, BirthDate);
    assert Get(u, Address) == Get(w, Address);
    assert Get(u, PhoneNumber) == Get(w, PhoneNumber);
  }

  /** A state is the all-null one exactly when every field is null. */
  lemma {:induction false} AllNullIff(u: UserFields)
    ensures u == AllNull <==> forall f :: Get(u, f).None?
  {
    if forall f :: Get(u, f).None? {
      FieldsExtensional(u, AllNull);
    }
  }

  /** Null means keep: the patch's value when it is non-null, the target's otherwise. */
  function KeepUnlessNull<T>(target: Option<T>, patch: Option<T>): Option<T> {
    if patch.Some? then patch else target
  }

  /**
   * The merge as a whole: each field of the result is the patch's field when
   * that is non-null and the target's field otherwise; id included.
   */
  function Merge(target: UserFields, patch: UserFields): (r: UserFields)
    ensures forall f :: Get(r, f) == if Get(patch, f).Some? then Get(patch, f) else Get(target, f)
  {
    UserFields(
      KeepUnlessNull(target.id, patch.id),
      KeepUnlessNull(target.email, patch.email),
      KeepUnlessNull(target.firstName, patch.firstName),
      KeepUnlessNull(target.lastName, patch.lastName),
      KeepUnlessNull(target.birthDate, patch.birthDate),
      KeepUnlessNull(target.address, patch.address),
      KeepUnlessNull(target.phoneNumber, patch.phoneNumber))
  }

  /** One iteration of the reflective loop: copy field f when the patch's value is non-null. */
  function MergeStep(u: UserFields, patch: UserFields, f: Field): UserFields {
    match Get(patch, f)
    case Some(v) => Set(u, f, v)
    case None => u
  }

  /** The loop run over the slots fs in order. */
  function MergeFields(target: UserFields, patch: UserFields, fs: seq<Field>): UserFields {
    if fs == [] then target
    else MergeStep(MergeFields(target, patch, fs[..|fs| - 1]), patch, fs[|fs| - 1])
  }

  /** After visiting fs, exactly the visited fields with a non-null patch value took the patch's value. */
  lemma {:induction false} MergeFieldsAt(target: UserFields, patch: UserFields, fs: seq<Field>, g: Field)
    ensures Get(MergeFields(target, patch, fs), g)
         == if g in fs && Get(patch, g).Some? then Get(patch, g) else Get(target, g)
  {
    if fs != [] {
      var init := fs[..|fs| - 1];
      MergeFieldsAt(target, patch, init, g);
      assert g in fs <==> g in init || g == fs[|fs| - 1];
    }
  }

  /** The visiting order does not matter: any two orders of the same slots merge alike. */
  lemma {:induction false} MergeFieldsOrderIndependent(target: UserFields, patch: UserFields, fs: seq<Field>, gs: seq<Field>)
    requires forall f :: f in fs <==> f in gs
    ensures MergeFields(target, patch, fs) == MergeFields(target, patch, gs)
  {
    forall g ensures Get(MergeFields(target, patch, fs), g) == Get(MergeFields(target, patch, gs), g) {
      MergeFieldsAt(target, patch, fs, g);
      MergeFieldsAt(target, patch, gs, g);
    }
    FieldsExtensional(MergeFields(target, patch, fs), MergeFields(target, patch, gs));
  }

  /** The loop over all declared fields computes the merge. */
  lemma {:induction false} DeclaredFieldsMerge(target: UserFields, patch: UserFields)
    ensures MergeFields(target, patch, DeclaredFields) == Merge(target, patch)
  {
    forall g ensures Get(MergeFields(target, patch, DeclaredFields), g) == Get(Merge(target, patch), g) {
      MergeFieldsAt(target, patch, DeclaredFields, g);
      DeclaredFieldsComplete(g);
    }
    FieldsExtensional(MergeFields(target, patch, DeclaredFields), Merge(target, patch));
  }

  /** Merging a state with itself over any slots changes nothing (the aliased call). */
  lemma {:induction false} MergeFieldsSelf(u: UserFields, fs: seq<Field>)
    ensures MergeFields(u, u, fs) == u
  {
    forall g ensures Get(MergeFields(u, u, fs), g) == Get(u, g) {
      MergeFieldsAt(u, u, fs, g);
    }
    FieldsExtensional(MergeFields(u, u, fs), u);
  }

  /** An all-null patch leaves the target as it was. */
  lemma {:induction false} MergeAllNull(target: UserFields)
    ensures Merge(target, AllNull) == target
  {
    FieldsExtensional(Merge(target, AllNull), target);
  }

  /** A patch with every field set replaces every field, id included. */
  lemma {:induction false} MergeFullPatch(target: UserFields, patch: UserFields)
    requires forall f :: Get(patch, f).Some?
    ensures Merge(target, patch) == patch
  {
    FieldsExtensional(Merge(target, patch), patch);
  }

  /** A one-field patch changes that field and no other. */
  lemma {:induction false} MergeOneField(target: UserFields, f: Field, v: Value)
    requires HasType(f, v)
    ensures Merge(target, Set(AllNull, f, v)) == Set(target, f, v)
  {
    FieldsExtensional(Merge(target, Set(AllNull, f, v)), Set(target, f, v));
  }

  /** Applying the same patch twice is applying it once. */
  lemma {:induction false} MergeIdempotent(target: UserFields, patch: UserFields)
    ensures Merge(Merge(target, patch), patch) == Merge(target, patch)
  {
    FieldsExtensional(Merge(Merge(target, patch), patch), Merge(target, patch));
  }

  /** A UserDto object: the seven fields that the patcher writes in place. */
  class UserDto {
    var id: Option<int>
    var email: Option<string>
    var firstName: Option<string>
    var lastName: Option<string>
    var birthDate: Option<LocalDate>
    var address: Option<string>
    var phoneNumber: Option<string>

    /** The object's current state as a value. */
    function Fields(): UserFields
      reads this
    {
      UserFields(id, email, firstName, lastName, birthDate, address, phoneNumber)
    }

    constructor (u: UserFields)
      ensures Fields() == u
    {
      id, email, firstName, lastName := u.id, u.email, u.firstName, u.lastName;
      birthDate, address, phoneNumber := u.birthDate, u.address, u.phoneNumber;
    }

    /** Field.set(this, v) for a value of the field's type. */
    method SetField(f: Field, v: Value)
      requires HasType(f, v)
      modifies this
      ensures Fields() == Set(old(Fields()), f, v)
    {
      match f
      case Id => id := Some(v.long);
      case Email => email := Some(v.str);
      case FirstName => firstName := Some(v.str);
      case LastName => lastName := Some(v.str);
      case BirthDate => birthDate := Some(v.date);
      case Address => address := Some(v.str);
      case PhoneNumber => phoneNumber := Some(v.str);
    }
  }
}
