/** The user validators: CreateUserDtoValidator checks name, email syntax, email
    availability, password and its confirmation; UpdateUserDtoValidator checks the
    first three, excluding the calling user from the availability check. */
module UserValidators {
  import opened Errors
  import opened Entities
  import opened Text
  import opened Validation
  import opened Dtos
  import opened UserRepository
  import ProductValidators
  import CategoryValidator

  /** The EmailAddress() rule in the validation library's default mode: exactly one
      '@', neither first nor last. */
  predicate IsEmailAddress(s: string) {
    exists i :: 0 < i < |s| - 1 && s[i] == '@' && forall j :: 0 <= j < |s| && j != i ==> s[j] != '@'
  }

  /** Position i holds the only '@' of s. */
  predicate OnlyAt(s: string, i: int) {
    0 <= i < |s| && s[i] == '@' && forall j :: 0 <= j < |s| && j != i ==> s[j] != '@'
  }

  function CreateUserRules(users: map<int, User>, dto: UserDto): seq<Rule>
    requires dto.CreateUserDto?
  {
    [ Rule(!IsNullOrWhiteSpace(dto.name), UserInvalidName),
      Rule(IsEmailAddress(dto.email), InvalidEmail),
      Rule(!EmailAlredyInUse(users, dto.email, 0), EmailAlreadyInUse),
      Rule(!IsNullOrWhiteSpace(dto.declaredPassword), InvalidPassword),
      Rule(dto.confPassword == dto.declaredPassword, NotIqualPassword) ]
  }

  function CreateUserErrors(users: map<int, User>, dto: UserDto): (errors: seq<Message>)
    requires dto.CreateUserDto?
    ensures errors == [] <==>
              && !IsNullOrWhiteSpace(dto.name) && IsEmailAddress(dto.email)
              && !EmailAlredyInUse(users, dto.email, 0)
              && !IsNullOrWhiteSpace(dto.declaredPassword) && dto.confPassword == dto.declaredPassword
    ensures errors != [] ==>
              errors[0] == if IsNullOrWhiteSpace(dto.name) then UserInvalidName
                           else if !IsEmailAddress(dto.email) then InvalidEmail
                           else if EmailAlredyInUse(users, dto.email, 0) then EmailAlreadyInUse
                           else if IsNullOrWhiteSpace(dto.declaredPassword) then InvalidPassword
                           else NotIqualPassword
    ensures EmailAlreadyInUse in errors <==> EmailAlredyInUse(users, dto.email, 0)
  {
    var rules := CreateUserRules(users, dto);
    var errors := Validate(rules);
    assert (forall i :: 0 <= i < |rules| ==> rules[i].passes) <==>
             rules[0].passes && rules[1].passes && rules[2].passes && rules[3].passes && rules[4].passes;
    assert forall i :: 0 <= i < |rules| && rules[i].message == EmailAlreadyInUse ==> i == 2;
    assert !rules[2].passes ==> EmailAlreadyInUse in errors;
    assert !rules[0].passes ==> errors[0] == UserInvalidName by {
      if !rules[0].passes { FirstFailingRule(rules, 0); }
    }
    assert rules[0].passes && !rules[1].passes ==> errors[0] == InvalidEmail by {
      if rules[0].passes && !rules[1].passes { FirstFailingRule(rules, 1); }
    }
    assert rules[0].passes && rules[1].passes && !rules[2].passes ==> errors[0] == EmailAlreadyInUse by {
      if rules[0].passes && rules[1].passes && !rules[2].passes { FirstFailingRule(rules, 2); }
    }
    assert rules[0].passes && rules[1].passes && rules[2].passes && !rules[3].passes ==> errors[0] == InvalidPassword by {
      if rules[0].passes && rules[1].passes && rules[2].passes && !rules[3].passes { FirstFailingRule(rules, 3); }
    }
    assert rules[0].passes && rules[1].passes && rules[2].passes && rules[3].passes && !rules[4].passes ==>
             errors[0] == NotIqualPassword by {
      if rules[0].passes && rules[1].passes && rules[2].passes && rules[3].passes && !rules[4].passes {
        FirstFailingRule(rules, 4);
      }
    }
    errors
  }

  function UpdateUserRules(users: map<int, User>, dto: UserDto, userId: int): seq<Rule>
    requires dto.UpdateUserDto?
  {
    [ Rule(!IsNullOrWhiteSpace(dto.name), UserInvalidName),
      Rule(IsEmailAddress(dto.email), InvalidEmail),
      Rule(!EmailAlredyInUse(users, dto.email, userId), EmailAlreadyInUse) ]
  }

  function UpdateUserErrors(users: map<int, User>, dto: UserDto, userId: int): (errors: seq<Message>)
    requires dto.UpdateUserDto?
    ensures errors == [] <==>
              !IsNullOrWhiteSpace(dto.name) && IsEmailAddress(dto.email) && !EmailAlredyInUse(users, dto.email, userId)
    ensures errors != [] ==>
              errors[0] == if IsNullOrWhiteSpace(dto.name) then UserInvalidName
                           else if !IsEmailAddress(dto.email) then InvalidEmail
                           else EmailAlreadyInUse
    ensures EmailAlreadyInUse in errors <==> EmailAlredyInUse(users, dto.email, userId)
  {
    var rules := UpdateUserRules(users, dto, userId);
    var errors := Validate(rules);
    assert (forall i :: 0 <= i < |rules| ==> rules[i].passes) <==>
             rules[0].passes && rules[1].passes && rules[2].passes;
    assert forall i :: 0 <= i < |rules| && rules[i].message == EmailAlreadyInUse ==> i == 2;
    assert !rules[2].passes ==> EmailAlreadyInUse in errors;
    assert !rules[0].passes ==> errors[0] == UserInvalidName;
    assert rules[0].passes && !rules[1].passes ==> errors[0] == InvalidEmail;
    errors
  }

  /** Signing up twice with the same email, in any case, fails the second time with
      EmailAlreadyInUse once the name and the email's syntax are fine. */
  lemma DuplicateEmailRejected(users: map<int, User>, k: int, dto: UserDto)
    requires KeysMatch(users)
    requires dto.CreateUserDto?
    requires k in users && EqualsIgnoreCase(users[k].email, dto.email)
    requires !IsNullOrWhiteSpace(dto.name) && IsEmailAddress(dto.email)
    ensures CreateUserErrors(users, dto) != []
    ensures CreateUserErrors(users, dto)[0] == EmailAlreadyInUse
  {
    assert users[k].id != 0;
  }

  /** A user who keeps their own email (or changes only its case) passes the
      availability rule of the update validator. */
  lemma KeepingOwnEmailAccepted(users: map<int, User>, k: int, dto: UserDto)
    requires KeysMatch(users) && EmailsUnique(users)
    requires dto.UpdateUserDto?
    requires k in users && EqualsIgnoreCase(users[k].email, dto.email)
    ensures !EmailAlredyInUse(users, dto.email, k)
  {
  }

  /** The number of '@' characters in a string. */
  function AtCount(s: string): (n: nat)
    ensures n <= |s|
  {
    if s == [] then 0 else AtCount(s[..|s| - 1]) + (if s[|s| - 1] == '@' then 1 else 0)
  }

  lemma {:induction false} AtCountZero(s: string)
    ensures AtCount(s) == 0 <==> forall j :: 0 <= j < |s| ==> s[j] != '@'
  {
    if s != [] {
      var t := s[..|s| - 1];
      AtCountZero(t);
      assert forall j :: 0 <= j < |t| ==> t[j] == s[j];
    }
  }

  /** A string has exactly one '@' when its count of '@' is one. */
  lemma {:induction false} AtCountOne(s: string)
    ensures AtCount(s) == 1 <==> exists i :: OnlyAt(s, i)
  {
    if s != [] {
      var t := s[..|s| - 1];
      assert forall j :: 0 <= j < |t| ==> t[j] == s[j];
      if s[|s| - 1] == '@' {
        AtCountZero(t);
        LastAtIsOnly(s);
      } else {
        AtCountOne(t);
        OnlyAtBeforeLast(s);
        assert AtCount(s) == AtCount(t);
        assert (exists i :: OnlyAt(s, i)) <==> exists i :: OnlyAt(t, i) by {
          if i :| OnlyAt(s, i) { assert OnlyAt(t, i); }
          if i :| OnlyAt(t, i) { assert OnlyAt(s, i); }
        }
      }
    }
  }

  /** When the last character is '@', it is the only one exactly when the rest has none. */
  lemma LastAtIsOnly(s: string)
    requires s != [] && s[|s| - 1] == '@'
    ensures (exists i :: OnlyAt(s, i)) <==> forall j :: 0 <= j < |s| - 1 ==> s[j] != '@'
  {
    if forall j :: 0 <= j < |s| - 1 ==> s[j] != '@' {
      assert OnlyAt(s, |s| - 1);
    }
  }

  /** When the last character is not '@', the only '@' of s is the only '@' of the rest. */
  lemma OnlyAtBeforeLast(s: string)
    requires s != [] && s[|s| - 1] != '@'
    ensures forall i :: OnlyAt(s, i) <==> OnlyAt(s[..|s| - 1], i)
  {
    var t := s[..|s| - 1];
    assert forall j :: 0 <= j < |t| ==> t[j] == s[j];
  }

  /** The email rule by counting: one '@', and it is neither the first nor the last
      character. */
  lemma EmailAddressByCount(s: string)
    ensures IsEmailAddress(s) <==> AtCount(s) == 1 && s[0] != '@' && s[|s| - 1] != '@'
  {
    AtCountOne(s);
    if AtCount(s) == 1 && s[0] != '@' && s[|s| - 1] != '@' {
      var i :| OnlyAt(s, i);
      assert 0 < i < |s| - 1;
    }
    if IsEmailAddress(s) {
      var i :| 0 < i < |s| - 1 && s[i] == '@' && forall j :: 0 <= j < |s| && j != i ==> s[j] != '@';
      assert OnlyAt(s, i);
    }
  }

  /** Sign-up reports InvalidEmail first exactly when the name passes and the email
      has no '@', more than one, or one in the first or last position. */
  lemma InvalidEmailFirst(users: map<int, User>, dto: UserDto)
    requires dto.CreateUserDto?
    ensures (CreateUserErrors(users, dto) != [] && CreateUserErrors(users, dto)[0] == InvalidEmail) <==>
              && !IsNullOrWhiteSpace(dto.name)
              && (AtCount(dto.email) != 1 || dto.email[0] == '@' || dto.email[|dto.email| - 1] == '@')
  {
    EmailAddressByCount(dto.email);
  }

  /** A blank name is the first error of the user, product and category validators
      alike, and all three report it with the same text "Nome inválido!", so a caller
      cannot tell the three rules apart. */
  lemma BlankNameTextsAlike(users: map<int, User>, user: UserDto, product: ProductDto,
                            categories: map<int, Category>, category: string, id: int)
    requires user.CreateUserDto? && IsNullOrWhiteSpace(user.name)
    requires IsNullOrWhiteSpace(product.name) && IsNullOrWhiteSpace(category)
    ensures CreateUserErrors(users, user) != [] && ProductValidators.ProductErrors(product) != []
    ensures CategoryValidator.CategoryErrors(categories, category, id) != []
    ensures Errors.Text(CreateUserErrors(users, user)[0]) == "Nome inválido!"
    ensures Errors.Text(CreateUserErrors(users, user)[0]) == Errors.Text(ProductValidators.ProductErrors(product)[0])
              == Errors.Text(CategoryValidator.CategoryErrors(categories, category, id)[0])
  {
  }
}
