/** The login and signup form: the phone check, the per-field input
    handler, the submit gate and post-signup reset, and the mode toggle. */
module LoginPage {

  /** `\d` in a regular expression without the `u` flag: an ASCII digit. */
  predicate IsDigit(c: char)
  {
    '0' <= c <= '9'
  }

  /** The phone test of `validatePhone`: exactly ten characters, and all of
      them digits (the `^\d{10}$` pattern). */
  predicate ValidPhone(phone: string)
    ensures ValidPhone(phone) ==> phone != "" && forall c :: c in phone ==> IsDigit(c)
  {
    |phone| == 10 && forall i :: 0 <= i < |phone| ==> IsDigit(phone[i])
  }

  const PHONE_ERROR: string := "Phone number must be exactly 10 digits."

  /** The four inputs, by their `name` attribute. */
  datatype Field = Name | Email | Phone | Password

  datatype FormData = FormData(name: string, email: string, phone: string, password: string)

  const EMPTY_FORM: FormData := FormData("", "", "", "")

  function Get(f: FormData, field: Field): string
  {
    match field
    case Name => f.name
    case Email => f.email
    case Phone => f.phone
    case Password => f.password
  }

  /** `{ ...prev, [name]: value }`: the named field takes the value, the
      other three stay. */
  function Put(f: FormData, field: Field, value: string): (r: FormData)
    ensures Get(r, field) == value
    ensures forall g :: g != field ==> Get(r, g) == Get(f, g)
  {
    match field
    case Name => f.(name := value)
    case Email => f.(email := value)
    case Phone => f.(phone := value)
    case Password => f.(password := value)
  }

  /** The error message agrees with the phone it was computed for: an error
      means the phone is invalid, no error means it is valid or still empty. */
  predicate PhoneErrorAgrees(phone: string, err: string)
  {
    && (err == "" || err == PHONE_ERROR)
    && (err != "" ==> !ValidPhone(phone))
    && (err == "" ==> ValidPhone(phone) || phone == "")
  }

  /** What a submit sends to the server. */
  datatype Submission =
    | NoRequest
    | LoginRequest(email: string, password: string)
    | SignupRequest(name: string, email: string, phone: string, password: string)

  class LoginForm {
    var isLogin: bool
    var formData: FormData
    var phoneError: string
    var isLoading: bool

    ghost predicate Valid()
      reads this
    {
      PhoneErrorAgrees(formData.phone, phoneError)
    }

    constructor ()
      ensures Valid()
      ensures isLogin && formData == EMPTY_FORM && phoneError == "" && !isLoading
    {
      isLogin := true;
      formData := EMPTY_FORM;
      phoneError := "";
      isLoading := false;
    }

    /** `validatePhone`: sets or clears the error and reports the verdict. */
    method ValidatePhone(phone: string) returns (ok: bool)
      modifies this
      ensures ok == ValidPhone(phone)
      ensures phoneError == (if ok then "" else PHONE_ERROR)
      ensures isLogin == old(isLogin) && formData == old(formData) && isLoading == old(isLoading)
    {
      if |phone| != 10 || !(forall i :: 0 <= i < |phone| ==> IsDigit(phone[i])) {
        phoneError := PHONE_ERROR;
        return false;
      }
      phoneError := "";
      return true;
    }

    /** `handleInputChange`: stores the value; only the phone is validated. */
    method HandleInputChange(field: Field, value: string)
      requires Valid()
      modifies this
      ensures Valid()
      ensures formData == Put(old(formData), field, value)
      ensures field == Phone ==> phoneError == (if ValidPhone(value) then "" else PHONE_ERROR)
      ensures field != Phone ==> phoneError == old(phoneError)
      ensures isLogin == old(isLogin) && isLoading == old(isLoading)
    {
      formData := Put(formData, field, value);
      if field == Phone {
        var _ := ValidatePhone(value);
      }
    }

    /** `handleSubmit`. In signup mode a phone error blocks the request and
        changes nothing. Otherwise the form is sent; `succeeded` says whether
        the call resolved. A successful signup switches to login mode and
        clears the form; a login, or a failed call, leaves the form as is.
        A signup is sent only with a valid phone or an empty one, and the
        browser's `required` attribute rules out the empty one. */
    method HandleSubmit(succeeded: bool) returns (sent: Submission)
      requires Valid()
      modifies this
      ensures Valid()
      ensures !old(isLogin) && old(phoneError) != "" ==>
                sent == NoRequest && isLogin == old(isLogin) && formData == old(formData)
                && isLoading == old(isLoading)
      ensures old(isLogin) ==>
                sent == LoginRequest(old(formData).email, old(formData).password)
                && isLogin && formData == old(formData) && !isLoading
      ensures !old(isLogin) && old(phoneError) == "" ==>
                && sent == SignupRequest(old(formData).name, old(formData).email, old(formData).phone, old(formData).password)
                && (succeeded ==> isLogin && formData == EMPTY_FORM)
                && (!succeeded ==> !isLogin && formData == old(formData))
                && !isLoading
      ensures sent.SignupRequest? ==> ValidPhone(sent.phone) || sent.phone == ""
      ensures phoneError == old(phoneError)
    {
      if !isLogin && phoneError != "" {
        return NoRequest;
      }
      isLoading := true;
      if isLogin {
        sent := LoginRequest(formData.email, formData.password);
      } else {
        sent := SignupRequest(formData.name, formData.email, formData.phone, formData.password);
        if succeeded {
          isLogin := true;
          formData := EMPTY_FORM;
        }
      }
      isLoading := false;
    }

    /** The mode toggle flips between login and signup and touches nothing else. */
    method ToggleMode()
      modifies this
      ensures isLogin == !old(isLogin)
      ensures formData == old(formData) && phoneError == old(phoneError) && isLoading == old(isLoading)
    {
      isLogin := !isLogin;
    }
  }
}
