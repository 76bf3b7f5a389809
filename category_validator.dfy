/** The category validators: a name rule followed, in the same rule chain, by a custom
    step that reports a name already used by another category. `id` is 0 for
    CreateCategoryDtoValidator (the repository's default) and the id of the category
    being renamed for UpdateCategoryDtoValidator. */
module CategoryValidator {
  import opened Errors
  import opened Entities
  import opened Text
  import opened Validation
  import opened CategoryRepository

  function CategoryRules(categories: map<int, Category>, name: string, id: int): seq<Rule> {
    [ Rule(!IsNullOrWhiteSpace(name), CategoryInvalidName),
      Rule(!NameAlreadyInUse(categories, name, id), NameAlreadyExists) ]
  }

  function CategoryErrors(categories: map<int, Category>, name: string, id: int): (errors: seq<Message>)
    ensures errors == [] <==> !IsNullOrWhiteSpace(name) && !NameAlreadyInUse(categories, name, id)
    ensures errors != [] ==>
              errors[0] == if IsNullOrWhiteSpace(name) then CategoryInvalidName else NameAlreadyExists
    ensures NameAlreadyExists in errors <==> NameAlreadyInUse(categories, name, id)
  {
    var rules := CategoryRules(categories, name, id);
    var errors := Validate(rules);
    assert (forall i :: 0 <= i < |rules| ==> rules[i].passes) <==> rules[0].passes && rules[1].passes;
    assert forall i :: 0 <= i < |rules| && rules[i].message == NameAlreadyExists ==> i == 1;
    assert !rules[1].passes ==> NameAlreadyExists in errors;
    assert !rules[0].passes ==> errors[0] == CategoryInvalidName;
    errors
  }

  /** Creating a category whose name differs from a stored one only by case is
      rejected with NameAlreadyExists. */
  lemma CaseVariantNameRejected(categories: map<int, Category>, k: int, name: string)
    requires KeysMatch(categories)
    requires k in categories && EqualsIgnoreCase(categories[k].name, name)
    requires !IsNullOrWhiteSpace(name)
    ensures CategoryErrors(categories, name, 0) != []
    ensures CategoryErrors(categories, name, 0)[0] == NameAlreadyExists
  {
    assert categories[k].id != 0;
  }

  /** Renaming a category to a case variant of its own name is accepted. */
  lemma RenameToOwnNameAccepted(categories: map<int, Category>, k: int, name: string)
    requires KeysMatch(categories) && NamesUnique(categories)
    requires k in categories && EqualsIgnoreCase(categories[k].name, name)
    requires !IsNullOrWhiteSpace(name)
    ensures CategoryErrors(categories, name, k) == []
  {
  }
}
