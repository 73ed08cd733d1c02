/** The sign-up form's own checks (app/components/RegisterForm.tsx), made
    before anything is sent: one error per field, the first failing check
    in order, and submission only when no field has an error. */
module RegisterForm {
  import opened Common
  import opened EmailShape
  import RegisterJs
  import RegisterTs
  import PgDb
  import Tokens

  datatype Form = Form(name: string, email: string, password: string, confirmPassword: string)

  /** At most one message per field. */
  datatype Errors = Errors(name: Option<string>, email: Option<string>, password: Option<string>,
                           confirmPassword: Option<string>)

  const MsgNameRequired := "Tên là bắt buộc"
  const MsgNameShort := "Tên phải có ít nhất 2 ký tự"
  const MsgEmailRequired := "Email là bắt buộc"
  const MsgEmailInvalid := "Email không hợp lệ"
  const MsgPasswordRequired := "Mật khẩu là bắt buộc"
  const MsgPasswordShort := "Mật khẩu phải có ít nhất 6 ký tự"
  const MsgPasswordWeak := "Mật khẩu phải chứa chữ hoa, chữ thường và số"
  const MsgConfirmRequired := "Xác nhận mật khẩu là bắt buộc"
  const MsgMismatch := "Mật khẩu không khớp"

  const MinNameLength := 2
  const MinPasswordLength := 6

  // ---------------------------------------------------------------------
  // The complexity pattern (?=.*[a-z])(?=.*[A-Z])(?=.*\d)
  // ---------------------------------------------------------------------

  predicate IsAsciiLower(c: char) {
    'a' <= c <= 'z'
  }

  predicate IsAsciiUpper(c: char) {
    'A' <= c <= 'Z'
  }

  /** `.*` then a character satisfying `p`, starting at `i`: some `j >= i`
      with `p(s[j])` and no line terminator in between (`.` does not match
      one). */
  predicate OnSameLine(s: string, i: nat, p: char -> bool) {
    exists j | i <= j < |s| :: p(s[j]) && forall k | i <= k < j :: !IsLineTerminator(s[k])
  }

  /** The pattern matches at some position: the three lookaheads succeed
      from the same start. */
  predicate Complex(s: string) {
    exists i | 0 <= i <= |s| ::
      OnSameLine(s, i, IsAsciiLower) && OnSameLine(s, i, IsAsciiUpper) && OnSameLine(s, i, IsDigit)
  }

  predicate Has(s: string, p: char -> bool) {
    exists j | 0 <= j < |s| :: p(s[j])
  }

  /** On a single line the pattern asks for a lower-case letter, an
      upper-case letter and a digit anywhere. */
  lemma ComplexOnOneLine(s: string)
    requires forall k | 0 <= k < |s| :: !IsLineTerminator(s[k])
    ensures Complex(s) <==> Has(s, IsAsciiLower) && Has(s, IsAsciiUpper) && Has(s, IsDigit)
  {
    if Has(s, IsAsciiLower) && Has(s, IsAsciiUpper) && Has(s, IsDigit) {
      assert OnSameLine(s, 0, IsAsciiLower) && OnSameLine(s, 0, IsAsciiUpper) && OnSameLine(s, 0, IsDigit);
    }
  }

  /** The three letters must share a line: split by a line break they do
      not match. */
  lemma SplitByLineBreakIsWeak()
    ensures !Complex("aB\n1")
  {
    var s := "aB\n1";
    assert s[0] == 'a' && s[1] == 'B' && s[2] == '\n' && s[3] == '1';
    assert !OnSameLine(s, 0, IsDigit) by {
      forall j | 0 <= j < |s| && IsDigit(s[j]) ensures IsLineTerminator(s[2]) && 2 < j {
      }
    }
    forall i | 1 <= i <= |s| ensures !OnSameLine(s, i, IsAsciiLower) {
    }
  }

  // ---------------------------------------------------------------------
  // validateForm
  // ---------------------------------------------------------------------

  function NameError(name: string): (r: Option<string>)
    ensures r.None? <==> |Trim(name)| >= MinNameLength
    ensures r == Some(MsgNameRequired) <==> AllSpace(name)
  {
    TrimEmptyIff(name);
    if Trim(name) == "" then Some(MsgNameRequired)
    else if |Trim(name)| < MinNameLength then Some(MsgNameShort)
    else None
  }

  function EmailError(email: string): (r: Option<string>)
    ensures r.None? <==> IsEmail(email)
    ensures r == Some(MsgEmailRequired) <==> email == ""
  {
    if email == "" then Some(MsgEmailRequired)
    else if !IsEmail(email) then Some(MsgEmailInvalid)
    else None
  }

  function PasswordError(password: string): (r: Option<string>)
    ensures r.None? <==> |password| >= MinPasswordLength && Complex(password)
    ensures r == Some(MsgPasswordRequired) <==> password == ""
    ensures r == Some(MsgPasswordShort) <==> 0 < |password| < MinPasswordLength
  {
    if password == "" then Some(MsgPasswordRequired)
    else if |password| < MinPasswordLength then Some(MsgPasswordShort)
    else if !Complex(password) then Some(MsgPasswordWeak)
    else None
  }

  function ConfirmError(password: string, confirmPassword: string): (r: Option<string>)
    ensures r.None? <==> confirmPassword != "" && confirmPassword == password
    ensures r == Some(MsgConfirmRequired) <==> confirmPassword == ""
  {
    if confirmPassword == "" then Some(MsgConfirmRequired)
    else if password != confirmPassword then Some(MsgMismatch)
    else None
  }

  /** `validateForm`: the errors it records. */
  function Validate(f: Form): (r: Errors)
    ensures r.name == NameError(f.name) && r.email == EmailError(f.email)
    ensures r.password == PasswordError(f.password)
    ensures r.confirmPassword == ConfirmError(f.password, f.confirmPassword)
  {
    Errors(NameError(f.name), EmailError(f.email), PasswordError(f.password),
           ConfirmError(f.password, f.confirmPassword))
  }

  /** No field has an error. */
  predicate Clean(e: Errors) {
    e.name.None? && e.email.None? && e.password.None? && e.confirmPassword.None?
  }

  /** The form passes exactly when every field meets its rule. */
  lemma ValidIff(f: Form)
    ensures Clean(Validate(f)) <==>
              && |Trim(f.name)| >= MinNameLength && IsEmail(f.email)
              && |f.password| >= MinPasswordLength && Complex(f.password)
              && f.confirmPassword == f.password
  {
  }

  /** `handleSubmit`: the data handed to `onRegister`, if any. */
  function Submit(f: Form): (r: Option<Form>)
    ensures r.Some? <==> Clean(Validate(f))
    ensures r.Some? ==> r.value == f
  {
    if Clean(Validate(f)) then Some(f) else None
  }

  // ---------------------------------------------------------------------
  // The form against the servers' own checks
  // ---------------------------------------------------------------------

  /** What the sign-up page posts for a submitted form: name, e-mail,
      password and status `'pending'`. The confirmation stays in the
      browser. */
  function JsRequest(f: Form): RegisterJs.Request {
    RegisterJs.Request(Text(f.email), Text(f.password), Text(f.name), Text("pending"))
  }

  /** The same post as the `.ts` handler reads it: it ignores `status`, and
      `confirmPassword` is absent. */
  function TsRequest(f: Form): RegisterTs.Request {
    RegisterTs.Request(Text(f.name), Text(f.email), Text(f.password), Missing)
  }

  /** Whatever the form lets through passes the `.js` server's
      validation. */
  lemma SubmittedFormPassesJsServer(f: Form)
    requires Submit(f).Some?
    ensures RegisterJs.Validate(JsRequest(f)).None?
  {
  }

  /** The `.ts` server refuses every sign-up the page sends, however the
      form was filled in: the missing confirmation makes it answer 400
      "All fields are required", and nothing is stored. */
  lemma TsServerRefusesEveryForm(f: Form, db: PgDb.Db, hash: string -> string, env: Tokens.Env,
                                  codec: Tokens.Codec, now: nat)
    ensures RegisterTs.Validate(TsRequest(f)) == Some(RegisterTs.MsgRequired)
    ensures RegisterTs.Register(db, Some(TsRequest(f)), hash, env, codec, now)
            == (Refused(400, RegisterTs.MsgRequired), db)
  {
  }

  /** A one-letter name padded with blanks is too short. */
  lemma PaddedNameTooShort()
    ensures NameError(" x ") == Some(MsgNameShort)
  {
    assert TrimStart(" x ") == "x ";
    assert TrimEnd("x ") == "x";
  }

  /** Six lower-case letters lack the upper-case letter and the digit. */
  lemma LowerCasePasswordIsWeak()
    ensures PasswordError("abcdef") == Some(MsgPasswordWeak)
  {
    var s := "abcdef";
    forall i | 0 <= i <= |s| ensures !OnSameLine(s, i, IsAsciiUpper) {
    }
  }

  /** The converse fails: a lower-case password of six letters and a
      blank-padded one-letter name pass the `.js` server's checks, and the
      form stops both. */
  lemma JsServerAcceptsWhatFormRejects()
    ensures var f := Form(" x ", "alice@example.com", "abcdef", "abcdef");
            && RegisterJs.Validate(JsRequest(f)).None?
            && Validate(f).password == Some(MsgPasswordWeak)
            && Validate(f).name == Some(MsgNameShort)
  {
    var f := Form(" x ", "alice@example.com", "abcdef", "abcdef");
    PaddedNameTooShort();
    LowerCasePasswordIsWeak();
    ServerAcceptsSample(f);
  }

  lemma ServerAcceptsSample(f: Form)
    requires f == Form(" x ", "alice@example.com", "abcdef", "abcdef")
    ensures RegisterJs.Validate(JsRequest(f)).None?
  {
    AliceIsEmail();
    assert |f.password| == 6;
  }
}
