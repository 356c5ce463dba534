/**
  The body accepted by POST /contacts, and the validation rules its
  decorators declare: name, email and phone must be non-empty strings,
  email must also satisfy the library's IsEmail check, phone has no format
  check at all, and photo is an optional string.
*/
module CreateContactDto {
  import opened Wrappers

  datatype CreateContactInput = CreateContactInput(
    name: string,
    email: string,
    phone: string,
    photo: Option<string>)

  /** A field that failed validation. */
  datatype CreateField = NameField | EmailField | PhoneField

  /**
    The validation pipe: either the input unchanged, or the non-empty set of
    every field that failed. `isEmail` stands for the validation library's
    IsEmail, which is not part of this model.
  */
  function Validate(input: CreateContactInput, isEmail: string -> bool): (r: Result<CreateContactInput, set<CreateField>>)
    ensures r.Ok? <==> input.name != "" && input.email != "" && isEmail(input.email) && input.phone != ""
    ensures r.Ok? ==> r.value == input
    ensures r.Err? ==> r.error != {}
    ensures r.Err? ==> (NameField in r.error <==> input.name == "")
    ensures r.Err? ==> (EmailField in r.error <==> input.email == "" || !isEmail(input.email))
    ensures r.Err? ==> (PhoneField in r.error <==> input.phone == "")
  {
    var errors :=
      (if input.name == "" then {NameField} else {}) +
      (if input.email == "" || !isEmail(input.email) then {EmailField} else {}) +
      (if input.phone == "" then {PhoneField} else {});
    if errors == {} then Ok(input) else Err(errors)
  }
}
