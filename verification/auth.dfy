/** The sign-in and sign-up forms (`src/pages/Auth.tsx`). Each handler runs
    its checks in order and stops at the first that fails, before the auth
    service is called; the service's answer is then sorted by its error
    message. The service itself is a parameter: `authError` is the message
    of the error it returns, if any. */
module Auth {
  import opened Common

  /** What the page tells the user. */
  datatype Notice =
    | FillAllFields | PasswordsDiffer | PasswordTooShort
    | InvalidCredentials | AccountExists | SignedIn | AccountCreated | ServiceError

  const MinPasswordLength: nat := 6
  const BadCredentialsMessage: string := "Invalid login credentials"
  const AlreadyRegisteredMessage: string := "User already registered"

  /** The check of `handleSignIn`: both fields must be non-empty. */
  function SignInCheck(email: string, password: string): (r: Option<Notice>)
    ensures r.Some? <==> email == "" || password == ""
    ensures r.Some? ==> r.value == FillAllFields
  {
    if email == "" || password == "" then Some(FillAllFields) else None
  }

  /** The checks of `handleSignUp`, in order: all three fields, then the
      confirmation, then the length of the password. */
  function SignUpCheck(email: string, password: string, confirm: string): (r: Option<Notice>)
    ensures r == Some(FillAllFields) <==> email == "" || password == "" || confirm == ""
    ensures r == Some(PasswordsDiffer) <==>
              email != "" && password != "" && confirm != "" && password != confirm
    ensures r == Some(PasswordTooShort) <==>
              email != "" && password != "" && password == confirm && |password| < MinPasswordLength
    ensures r == None <==>
              email != "" && password == confirm && |password| >= MinPasswordLength
  {
    if email == "" || password == "" || confirm == "" then Some(FillAllFields)
    else if password != confirm then Some(PasswordsDiffer)
    else if |password| < MinPasswordLength then Some(PasswordTooShort)
    else None
  }

  /** The sign-in answer: a message mentioning bad credentials is reported as
      such, any other error generically. */
  function SignInReply(authError: Option<string>): (n: Notice)
    ensures authError.None? <==> n == SignedIn
    ensures n == InvalidCredentials <==> authError.Some? && Contains(authError.value, BadCredentialsMessage)
    ensures n in {SignedIn, InvalidCredentials, ServiceError}
  {
    if authError.None? then SignedIn
    else if Contains(authError.value, BadCredentialsMessage) then InvalidCredentials
    else ServiceError
  }

  /** The sign-up answer: an already registered address is reported as an
      existing account, any other error generically. */
  function SignUpReply(authError: Option<string>): (n: Notice)
    ensures authError.None? <==> n == AccountCreated
    ensures n == AccountExists <==> authError.Some? && Contains(authError.value, AlreadyRegisteredMessage)
    ensures n in {AccountCreated, AccountExists, ServiceError}
  {
    if authError.None? then AccountCreated
    else if Contains(authError.value, AlreadyRegisteredMessage) then AccountExists
    else ServiceError
  }

  /** `message.includes(m)` finds `m` wherever it sits in the message. */
  lemma ContainsInside(pre: string, m: string, post: string)
    ensures Contains(pre + m + post, m)
  {
    var s := pre + m + post;
    assert s[|pre|..|pre| + |m|] == m;
    assert OccursAt(s, m, |pre|);
    ContainsIffOccurs(s, m);
  }

  /** The service's message may carry more text around the known phrase. */
  lemma WrappedMessagesAreRecognised(pre: string, post: string)
    ensures SignInReply(Some(pre + BadCredentialsMessage + post)) == InvalidCredentials
    ensures SignUpReply(Some(pre + AlreadyRegisteredMessage + post)) == AccountExists
  {
    ContainsInside(pre, BadCredentialsMessage, post);
    ContainsInside(pre, AlreadyRegisteredMessage, post);
  }

  /** Exactly six characters is long enough; five is not. */
  lemma PasswordLengthBoundary(email: string)
    requires email != ""
    ensures SignUpCheck(email, "abcdef", "abcdef") == None
    ensures SignUpCheck(email, "abcde", "abcde") == Some(PasswordTooShort)
  {
  }

  /** Whatever passes the sign-up checks passes the sign-in check. */
  lemma SignUpChecksCoverSignIn(email: string, password: string, confirm: string)
    ensures SignUpCheck(email, password, confirm) == None ==> SignInCheck(email, password) == None
  {
  }

  class AuthPage {
    var email: string
    var password: string
    var confirmPassword: string
    var loading: bool

    constructor ()
      ensures email == "" && password == "" && confirmPassword == "" && !loading
    {
      email, password, confirmPassword := "", "", "";
      loading := false;
    }

    method Edit(email: string, password: string, confirmPassword: string)
      modifies this
      ensures this.email == email && this.password == password && this.confirmPassword == confirmPassword
      ensures loading == old(loading)
    {
      this.email, this.password, this.confirmPassword := email, password, confirmPassword;
    }

    /** `handleSignIn`: `called` says whether the auth service was asked. */
    method SignIn(authError: Option<string>) returns (notice: Notice, called: bool)
      requires !loading
      modifies this
      ensures called <==> SignInCheck(old(email), old(password)).None?
      ensures !called ==> notice == SignInCheck(old(email), old(password)).value
      ensures called ==> notice == SignInReply(authError)
      ensures email == old(email) && password == old(password) && confirmPassword == old(confirmPassword)
      ensures !loading
    {
      var check := SignInCheck(email, password);
      if check.Some? {
        return check.value, false;
      }
      loading := true;
      notice := SignInReply(authError);
      called := true;
      loading := false;
    }

    /** `handleSignUp`: a created account clears the three fields. */
    method SignUp(authError: Option<string>) returns (notice: Notice, called: bool)
      requires !loading
      modifies this
      ensures called <==> SignUpCheck(old(email), old(password), old(confirmPassword)).None?
      ensures !called ==> notice == SignUpCheck(old(email), old(password), old(confirmPassword)).value
      ensures called ==> notice == SignUpReply(authError)
      ensures notice == AccountCreated ==> email == "" && password == "" && confirmPassword == ""
      ensures notice != AccountCreated ==>
                email == old(email) && password == old(password) && confirmPassword == old(confirmPassword)
      ensures !loading
    {
      var check := SignUpCheck(email, password, confirmPassword);
      if check.Some? {
        return check.value, false;
      }
      loading := true;
      notice := SignUpReply(authError);
      called := true;
      if notice == AccountCreated {
        email, password, confirmPassword := "", "", "";
      }
      loading := false;
    }
  }

  /** After an account is created the fields are empty, so pressing the
      button again is refused without asking the service. */
  method SignUpTwice(page: AuthPage, second: Option<string>) returns (notice: Notice, called: bool)
    requires !page.loading
    requires page.email != "" && page.password == page.confirmPassword
    requires |page.password| >= MinPasswordLength
    modifies page
    ensures !called && notice == FillAllFields
    ensures page.email == "" && page.password == "" && page.confirmPassword == ""
  {
    var n1, c1 := page.SignUp(None);
    assert n1 == AccountCreated;
    notice, called := page.SignUp(second);
  }
}
