/** The contact form's validation: `validateForm`, run on submit over the
    values read from the form, and `validateInput`, run per field on blur and
    while the user types, which keeps the field's `error` class up to date. */
module FormValidation {
  import opened Strings
  import opened Email
  import opened Wrappers

  /** The values `FormData.get` returns for the four fields: a string, or
      null (None) when the form has no such field. */
  datatype ContactData = ContactData(
    name: Option<string>,
    email: Option<string>,
    interest: Option<string>,
    message: Option<string>)

  /** JavaScript's `!v` on a string-or-null: true for null and for "". */
  predicate Falsy(v: Option<string>) {
    v.None? || v.value == ""
  }

  const NameMessage := "Please enter a valid name."
  const EmailMessage := "Please enter a valid email address."
  const InterestMessage := "Please select an area of interest."
  const SuccessMessage := "Thank you for your message! We will get back to you soon."

  /** The outcome of `validateForm`: true, or false together with the error
      message it showed. */
  datatype Verdict = Pass | Fail(message: string)

  /** A name is present and, once trimmed, at least two UTF-16 code units
      long (`length` counts code units, so one astral character suffices). */
  predicate NameAccepted(name: Option<string>) {
    name.Some? && Utf16Length(Trim(name.value)) >= 2
  }

  /** An e-mail is present and, untrimmed, matches the pattern. */
  predicate EmailAccepted(email: Option<string>) {
    email.Some? && IsEmail(email.value)
  }

  /** An interest is present and not empty (it is not trimmed). */
  predicate InterestAccepted(interest: Option<string>) {
    interest.Some? && interest.value != ""
  }

  /** `validateForm(data)`: the checks run in the order name, e-mail,
      interest and the first that fails decides the message; the message
      field is never looked at. */
  function ValidateForm(data: ContactData): (r: Verdict)
    ensures r == Pass <==>
      NameAccepted(data.name) && EmailAccepted(data.email) && InterestAccepted(data.interest)
    ensures r == Fail(NameMessage) <==> !NameAccepted(data.name)
    ensures r == Fail(EmailMessage) <==> NameAccepted(data.name) && !EmailAccepted(data.email)
    ensures r == Fail(InterestMessage) <==>
      NameAccepted(data.name) && EmailAccepted(data.email) && !InterestAccepted(data.interest)
  {
    if Falsy(data.name) || Utf16Length(Trim(data.name.value)) < 2 then Fail(NameMessage)
    else if Falsy(data.email) || !IsEmail(data.email.value) then Fail(EmailMessage)
    else if Falsy(data.interest) then Fail(InterestMessage)
    else Pass
  }

  /** The message field has no influence on the verdict. */
  lemma MessageIgnored(data: ContactData, message: Option<string>)
    ensures ValidateForm(data.(message := message)) == ValidateForm(data)
  {
  }

  datatype MessageKind = Success | Error

  /** What `showFormMessage(text, kind)` is asked to display. */
  datatype FormMessage = FormMessage(text: string, kind: MessageKind)

  /** The submit handler: one message is shown, the success message when
      every field passes and otherwise the error of the first failing field. */
  function Submit(data: ContactData): (m: FormMessage)
    ensures m.kind == Success <==>
      NameAccepted(data.name) && EmailAccepted(data.email) && InterestAccepted(data.interest)
    ensures m.kind == Success ==> m.text == SuccessMessage
    ensures m.kind == Error ==> ValidateForm(data) == Fail(m.text)
  {
    match ValidateForm(data)
    case Pass => FormMessage(SuccessMessage, Success)
    case Fail(text) => FormMessage(text, Error)
  }

  /** The `type` property of a form control, as far as `validateInput`
      distinguishes it; `textarea` and every other type fall under OtherType. */
  datatype InputType = EmailType | TextType | SelectOne | OtherType

  /** The validity `validateInput` computes from a control's type and its
      already trimmed value. */
  predicate InputAccepts(kind: InputType, value: string) {
    match kind
    case EmailType => IsEmail(value)
    case TextType => Utf16Length(value) >= 2
    case SelectOne => value != ""
    case OtherType => true
  }

  /** Whether `validateInput` leaves the `error` class on a control holding
      `raw`: the trimmed value is invalid and not empty. */
  predicate Flagged(kind: InputType, raw: string) {
    var value := Trim(raw);
    !InputAccepts(kind, value) && value != ""
  }

  /** A form control with its `error` class. */
  class FormInput {
    const kind: InputType
    var value: string
    var error: bool

    /** The flag is only ever on for a value it is right about. */
    ghost predicate Valid()
      reads this
    {
      error ==> Flagged(kind, value)
    }

    constructor (kind: InputType, value: string)
      ensures Valid()
      ensures this.kind == kind && this.value == value && !error
    {
      this.kind := kind;
      this.value := value;
      error := false;
    }

    /** `validateInput(input)`: returns whether the trimmed value is valid
        for the control's type and sets the error class exactly when it is
        invalid and not empty. */
    method Validate() returns (valid: bool)
      modifies this`error
      ensures valid == InputAccepts(kind, Trim(value))
      ensures error == Flagged(kind, value)
      ensures Valid()
    {
      var v := Trim(value);
      match kind {
        case EmailType => valid := IsEmail(v);
        case TextType => valid := Utf16Length(v) >= 2;
        case SelectOne => valid := v != "";
        case OtherType => valid := true;
      }
      if !valid && v != "" {
        error := true;
      } else {
        error := false;
      }
    }

    /** The `blur` handler. */
    method Blur()
      modifies this`error
      ensures error == Flagged(kind, value)
      ensures Valid()
    {
      var _ := Validate();
    }

    /** The user changes the value to `v`, and the `input` handler runs: it
        re-validates only a control already flagged, so typing can clear the
        flag but never raise it. */
    method Input(v: string)
      modifies this`value, this`error
      ensures value == v
      ensures error == (old(error) && Flagged(kind, v))
      ensures Valid()
    {
      value := v;
      if error {
        var _ := Validate();
      }
    }
  }

  /** A `text` control and the form's name check apply the same rule. */
  lemma TextRuleIsNameRule(raw: string)
    ensures InputAccepts(TextType, Trim(raw)) <==> NameAccepted(Some(raw))
  {
  }

  /** Lengths are counted in UTF-16 code units: a name made of one emoji
      (U+1F600, a surrogate pair) is long enough, and one BMP letter is not. */
  lemma AstralNameAccepted()
    ensures NameAccepted(Some("\U{1F600}"))
    ensures !NameAccepted(Some("a"))
  {
    TrimNoWhitespace("\U{1F600}");
    TrimNoWhitespace("a");
  }

  /** An e-mail the form accepts is accepted by its `email` control too,
      because a string matching the pattern has nothing to trim. */
  lemma FormEmailPassesInput(raw: string)
    requires EmailAccepted(Some(raw))
    ensures InputAccepts(EmailType, Trim(raw))
    ensures !Flagged(EmailType, raw)
  {
    TrimNoWhitespace(raw);
  }

  /** `a@b.co` matches the pattern. */
  lemma SampleAddressIsEmail()
    ensures IsEmail("a@b.co")
  {
    var t := "a@b.co";
    assert t[..1] == "a" && t[2..3] == "b" && t[4..] == "co";
    assert t[1] == '@' && t[3] == '.';
    assert AllPlain(t[..1]) && AllPlain(t[1 + 1..3]) && AllPlain(t[3 + 1..]);
    assert MatchesRegex(t);
    RegexMatchIsEmail(t);
  }

  /** A leading no-break space (U+00A0), which the browser keeps in the
      control's value, is trimmed off by `trim`. */
  lemma SampleAddressTrimmed()
    ensures Trim("\U{00A0}a@b.co") == "a@b.co"
  {
    var t := "a@b.co";
    assert "\U{00A0}a@b.co" == ['\U{00A0}'] + t + [];
    assert Trimmed(t);
    TrimOfMargins(['\U{00A0}'], t, []);
  }

  /** The converse fails: the control trims before matching and the form
      does not, so an address typed after a no-break space passes the control
      and is rejected on submit. */
  lemma InputEmailMoreLenient()
    ensures InputAccepts(EmailType, Trim("\U{00A0}a@b.co"))
    ensures !EmailAccepted(Some("\U{00A0}a@b.co"))
  {
    SampleAddressTrimmed();
    SampleAddressIsEmail();
    var raw := "\U{00A0}a@b.co";
    assert IsWhitespace(raw[0]);
  }

  /** An empty or all-blank control never carries the error class,
      whatever its type. */
  lemma BlankNeverFlagged(kind: InputType, raw: string)
    requires AllWhitespace(raw)
    ensures !Flagged(kind, raw)
  {
    TrimEmptyIff(raw);
  }

  /** The flag is raised exactly for values whose trimmed form is non-empty
      and fails the type's rule; for a `select-one` control that is never
      the case, since its rule and the emptiness test coincide. */
  lemma SelectOneNeverFlagged(raw: string)
    ensures !Flagged(SelectOne, raw)
  {
  }

  /** A one-letter value is too short for a `text` control and not blank. */
  lemma SingleLetterFlagged()
    ensures Flagged(TextType, "J")
  {
    TrimNoWhitespace("J");
  }

  /** Moving focus away from a control fires its `blur` handler: a `text`
      control where `J` was typed is not flagged while typing, and gets the
      error class once focus leaves it (for instance when Escape closes the
      menu and focuses the toggle). */
  method BlurAfterTypingScenario() returns (whileTyping: bool, afterBlur: bool)
    ensures !whileTyping && afterBlur
  {
    var name := new FormInput(TextType, "");
    name.Input("J");
    whileTyping := name.error;
    SingleLetterFlagged();
    name.Blur();
    afterBlur := name.error;
  }
}
