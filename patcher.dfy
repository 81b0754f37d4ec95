/**
 * Patcher.internPatcher: walks UserDto's declared fields and writes each
 * non-null value of the incomplete DTO onto the existing one, in place.
 */
module Patcher {
  import opened Wrappers
  import opened UserDtos
  import opened Exceptions

  /**
   * Copies every non-null field of `incomplete` onto `existing`. A null
   * `incomplete` fails at the first Field.get; a null `existing` fails at the
   * first non-null value to write, so with an all-null patch it succeeds. Both
   * failures are reported as PatchFailed and write nothing.
   */
  method InternPatcher(existing: UserDto?, incomplete: UserDto?) returns (r: Outcome<Error>)
    modifies existing
    ensures r.Fail? ==> r.error == PatchFailed
    ensures incomplete == null ==> r.Fail?
    ensures incomplete != null ==>
              (r.Pass? <==> existing != null || old(incomplete.Fields()) == AllNull)
    ensures existing != null && incomplete != null && r.Pass? ==>
              existing.Fields() == Merge(old(existing.Fields()), old(incomplete.Fields()))
    ensures existing != null && r.Fail? ==> existing.Fields() == old(existing.Fields())
    ensures incomplete != null && incomplete != existing ==> unchanged(incomplete)
  {
    if incomplete == null {
      // Field.get(null) throws on the first declared field, before any write.
      return Fail(PatchFailed);
    }
    ghost var patch := incomplete.Fields();
    ghost var target := if existing != null then existing.Fields() else AllNull;
    assert existing == incomplete ==> target == patch;
    for i := 0 to |DeclaredFields|
      invariant incomplete.Fields() == patch
      invariant existing != null ==> existing.Fields() == MergeFields(target, patch, DeclaredFields[..i])
      invariant existing == null ==> forall k :: 0 <= k < i ==> Get(patch, DeclaredFields[k]).None?
    {
      var field := DeclaredFields[i];
      var value := Get(incomplete.Fields(), field);
      if value.Some? {
        if existing == null {
          // Field.set(null, value) throws.
          AllNullIff(patch);
          return Fail(PatchFailed);
        }
        existing.SetField(field, value.value);
        assert DeclaredFields[..i + 1][..i] == DeclaredFields[..i];
        if existing == incomplete {
          MergeFieldsSelf(patch, DeclaredFields[..i + 1]);
        }
      } else {
        assert DeclaredFields[..i + 1][..i] == DeclaredFields[..i];
      }
    }
    if existing != null {
      assert DeclaredFields[..|DeclaredFields|] == DeclaredFields;
      DeclaredFieldsMerge(target, patch);
    } else {
      forall f ensures Get(patch, f).None? {
        DeclaredFieldsComplete(f);
      }
      AllNullIff(patch);
    }
    return Pass;
  }
}
