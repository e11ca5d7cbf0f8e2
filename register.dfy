/**
 The decision the registration form makes when it is submitted: check the
 fields in a fixed order, report the first rule that fails, and only when all
 pass build the request body. Sending the request, the notifications and the
 redirect that follow are left to the caller.
 */
module Register {
  import opened RegisterPatterns

  /** What the user typed into the five fields of the form. */
  datatype RegistrationForm = RegistrationForm(
    lastName: string,
    firstName: string,
    email: string,
    password: string,
    password2: string)

  /**
   The request body posted to the registration endpoint, sent as the JSON keys
   `first_name`, `last_name`, `email` and `password`. It has no place for the
   confirmation.
   */
  datatype User = User(firstName: string, lastName: string, email: string, password: string)

  /** The rules the form checks, each with its own diagnostic. */
  datatype Rule = LastNameRule | FirstNameRule | EmailRule | PasswordRule | ConfirmationRule

  /** The result of a submission: the first failing rule, or the body to post. */
  datatype Outcome = Rejected(failed: Rule) | Submitted(payload: User)

  /** The position of each rule in the order the form checks them. */
  function Rank(rule: Rule): nat
  {
    match rule
    case LastNameRule => 0
    case FirstNameRule => 1
    case EmailRule => 2
    case PasswordRule => 3
    case ConfirmationRule => 4
  }

  /**
   Whether `form` satisfies `rule`: a name rule tests its field with the name
   pattern, the e-mail and password rules their patterns, and the confirmation
   rule compares the two passwords.
   */
  function Passes(form: RegistrationForm, rule: Rule): (ok: bool)
    ensures ok && rule == LastNameRule ==> |form.lastName| >= 2
    ensures ok && rule == FirstNameRule ==> |form.firstName| >= 2
    ensures ok && rule == EmailRule ==> '@' in form.email
    ensures ok && rule == PasswordRule ==> |form.password| >= 8
    ensures rule == ConfirmationRule ==> (ok <==> form.password2 == form.password)
  {
    match rule
    case LastNameRule => NameRegexTest(form.lastName)
    case FirstNameRule => NameRegexTest(form.firstName)
    case EmailRule => EmailRegexTest(form.email)
    case PasswordRule => PasswordRegexTest(form.password)
    case ConfirmationRule => form.password == form.password2
  }

  /** The part the two name messages share after the field's name. */
  const NameRuleWording := " legalább 2 betű és csak betűket tartalmazhat"

  /**
   The message the form shows when `rule` fails. The two name messages are
   written as the field's name followed by their shared wording.
   */
  function Diagnostic(rule: Rule): (message: string)
    ensures |message| > 0
  {
    match rule
    case LastNameRule => "Vezetéknév" + NameRuleWording
    case FirstNameRule => "Keresztnév" + NameRuleWording
    case EmailRule => "Nem megfelelő e-mail formátum"
    case PasswordRule => "A jelszó" + " legalább 8 karakteres és tartalmaznia kell számot is"
    case ConfirmationRule => "A két jelszó nem egyezik!"
  }

  /** Each rule has its own message, so the message shown tells which rule failed. */
  lemma DiagnosticsDistinct(r1: Rule, r2: Rule)
    ensures Diagnostic(r1) == Diagnostic(r2) <==> r1 == r2
  {
    if r1 != r2 {
      // The messages differ in their first character, or in their third for the two password messages.
      var k := if r1 in {PasswordRule, ConfirmationRule} && r2 in {PasswordRule, ConfirmationRule} then 2 else 0;
      assert Diagnostic(r1)[k] != Diagnostic(r2)[k];
    }
  }

  /**
   The `handleClick` decision: the first failing rule in the order last name,
   first name, e-mail, password, confirmation; otherwise the request body,
   holding the four entered values and not the confirmation.
   */
  function HandleClick(form: RegistrationForm): (o: Outcome)
    ensures o.Submitted? <==> forall rule :: Passes(form, rule)
    ensures o.Rejected? ==> !Passes(form, o.failed)
    ensures o.Rejected? ==> forall rule :: Rank(rule) < Rank(o.failed) ==> Passes(form, rule)
    ensures o.Submitted? ==>
      o.payload == User(form.firstName, form.lastName, form.email, form.password)
  {
    if !NameRegexTest(form.lastName) then
      assert !Passes(form, LastNameRule);
      Rejected(LastNameRule)
    else if !NameRegexTest(form.firstName) then
      assert !Passes(form, FirstNameRule);
      Rejected(FirstNameRule)
    else if !EmailRegexTest(form.email) then
      assert !Passes(form, EmailRule);
      Rejected(EmailRule)
    else if !PasswordRegexTest(form.password) then
      assert !Passes(form, PasswordRule);
      Rejected(PasswordRule)
    else if form.password != form.password2 then
      assert !Passes(form, ConfirmationRule);
      Rejected(ConfirmationRule)
    else Submitted(User(form.firstName, form.lastName, form.email, form.password))
  }

  /** The rule reported is the one a first-failure search over the check order finds. */
  lemma HandleClickReportsFirstFailure(form: RegistrationForm, rule: Rule)
    ensures HandleClick(form) == Rejected(rule) <==>
      !Passes(form, rule) && forall r :: Rank(r) < Rank(rule) ==> Passes(form, r)
  {
    var o := HandleClick(form);
    if o.Rejected? {
      var f := o.failed;
      assert Rank(rule) < Rank(f) ==> Passes(form, rule);
    }
  }

  /**
   With four valid fields and a confirmation that differs, the mismatch is
   reported and nothing is posted.
   */
  lemma MismatchIsReported(form: RegistrationForm)
    requires NameRegexTest(form.lastName) && NameRegexTest(form.firstName)
    requires EmailRegexTest(form.email) && PasswordRegexTest(form.password)
    requires form.password != form.password2
    ensures HandleClick(form) == Rejected(ConfirmationRule)
    ensures Diagnostic(HandleClick(form).failed) == "A két jelszó nem egyezik!"
  {
  }

  /**
   Once the other four fields pass, the confirmation decides alone: the form is
   submitted exactly when it equals the password, and any other confirmation is
   reported as a mismatch.
   */
  lemma PayloadIgnoresConfirmation(form: RegistrationForm, other: string)
    requires HandleClick(form).Submitted?
    ensures HandleClick(form.(password2 := other)).Submitted? <==> other == form.password
    ensures other != form.password ==> HandleClick(form.(password2 := other)) == Rejected(ConfirmationRule)
  {
  }
}
