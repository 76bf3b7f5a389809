/** The product validators. The create and the update validator declare the same three
    rules, so one rule list serves both. */
module ProductValidators {
  import opened Errors
  import opened Text
  import opened Validation
  import opened Dtos

  function ProductRules(dto: ProductDto): seq<Rule> {
    [ Rule(!IsNullOrWhiteSpace(dto.name), ProductInvalidName),
      Rule(dto.price >= 0.0, InvalidPrice),
      Rule(dto.discount >= 0.0, InvalidDiscount) ]
  }

  /** The errors of CreateProductDtoValidator and UpdateProductDtoValidator: a blank
      name, a negative price and a negative discount, reported in that order. */
  function ProductErrors(dto: ProductDto): (errors: seq<Message>)
    ensures errors == [] <==> !IsNullOrWhiteSpace(dto.name) && dto.price >= 0.0 && dto.discount >= 0.0
    ensures errors != [] ==>
              errors[0] == if IsNullOrWhiteSpace(dto.name) then ProductInvalidName
                           else if dto.price < 0.0 then InvalidPrice
                           else InvalidDiscount
    ensures InvalidPrice in errors <==> dto.price < 0.0
    ensures InvalidDiscount in errors <==> dto.discount < 0.0
  {
    var rules := ProductRules(dto);
    var errors := Validate(rules);
    assert (forall i :: 0 <= i < |rules| ==> rules[i].passes) <==>
             rules[0].passes && rules[1].passes && rules[2].passes;
    assert forall i :: 0 <= i < |rules| && rules[i].message == InvalidPrice ==> i == 1;
    assert forall i :: 0 <= i < |rules| && rules[i].message == InvalidDiscount ==> i == 2;
    assert !rules[1].passes ==> InvalidPrice in errors;
    assert !rules[2].passes ==> InvalidDiscount in errors;
    assert !rules[0].passes ==> errors[0] == ProductInvalidName;
    assert rules[0].passes && !rules[1].passes ==> errors[0] == InvalidPrice;
    errors
  }
}
