/** The category queries. Names are compared with `ILIKE`, i.e. ignoring case; a name
    is taken as a literal (see README for the pattern characters). */
module CategoryRepository {
  import opened Wrappers
  import opened Entities
  import opened Text
  import opened Tables

  /** The first category whose name matches `name` ignoring case, if there is one. */
  function GetByName(categories: map<int, Category>, name: string): (r: Option<Category>)
    ensures r.None? <==> forall k :: k in categories ==> !EqualsIgnoreCase(categories[k].name, name)
    ensures r.Some? ==> r.value in categories.Values && EqualsIgnoreCase(r.value.name, name)
  {
    FirstWhere(categories, (c: Category) => EqualsIgnoreCase(c.name, name))
  }

  /** Whether some category other than the one with id `id` has this name, ignoring
      case. The default `id` of 0 belongs to no stored row, so then every category
      counts. */
  predicate NameAlreadyInUse(categories: map<int, Category>, name: string, id: int) {
    exists k :: k in categories && categories[k].id != id && EqualsIgnoreCase(categories[k].name, name)
  }

  /** The uniqueness the category validators keep: no two categories have names that
      differ only by case. */
  predicate NamesUnique(categories: map<int, Category>) {
    forall a, b :: a in categories && b in categories && a != b ==>
      !EqualsIgnoreCase(categories[a].name, categories[b].name)
  }

  predicate KeysMatch(categories: map<int, Category>) {
    forall k :: k in categories ==> categories[k].id == k && k != 0
  }

  /** With the default id, NameAlreadyInUse holds exactly when GetByName finds a row. */
  lemma NameInUseIffFound(categories: map<int, Category>, name: string)
    requires KeysMatch(categories)
    ensures NameAlreadyInUse(categories, name, 0) <==> GetByName(categories, name).Some?
  {
    if GetByName(categories, name).Some? {
      var c := GetByName(categories, name).value;
      ValueHasKey(categories, c);
      var k :| k in categories && categories[k] == c;
    }
  }

  /** The category GetByName finds is stored under its own id. */
  lemma FoundIsStored(categories: map<int, Category>, name: string)
    requires KeysMatch(categories) && GetByName(categories, name).Some?
    ensures var c := GetByName(categories, name).value; c.id in categories && categories[c.id] == c
  {
    ValueHasKey(categories, GetByName(categories, name).value);
  }

  /** When names are unique ignoring case, GetByName finds the one category whose name
      matches, so the order of the table scan does not matter. */
  lemma GetByNameExact(categories: map<int, Category>, name: string, k: int)
    requires NamesUnique(categories)
    requires k in categories && EqualsIgnoreCase(categories[k].name, name)
    ensures GetByName(categories, name) == Some(categories[k])
  {
    var c := GetByName(categories, name).value;
    ValueHasKey(categories, c);
    var j :| j in categories && categories[j] == c;
    if j != k {
      assert EqualsIgnoreCase(categories[j].name, categories[k].name);
    }
  }

  /** Renaming a category to a name that only it already uses (ignoring case) is not a
      clash: NameAlreadyInUse with the category's own id excludes it. */
  lemma OwnNameIsNotInUse(categories: map<int, Category>, k: int)
    requires KeysMatch(categories) && NamesUnique(categories)
    requires k in categories
    ensures !NameAlreadyInUse(categories, categories[k].name, k)
    ensures NameAlreadyInUse(categories, categories[k].name, 0)
  {
    assert categories[k].id != 0 && EqualsIgnoreCase(categories[k].name, categories[k].name);
  }
}
