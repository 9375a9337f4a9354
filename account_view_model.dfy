/**
 * The account form of the data-binding tutorial: the Account record, the
 * AccountViewModel that backs the form, and its submit handler, which checks
 * the entered username, then the entered email, and either records an error
 * message for the form or copies both values into the account.
 *
 * Properties are plain fields here: the change notifications that the
 * observable base classes raise are not part of this model.
 */
module DatabindingExample {
  import opened Patterns

  /** A C# string reference: null, or a sequence of characters. */
  datatype NullableString = Null | NonNull(value: string)

  /** string.IsNullOrEmpty */
  predicate IsNullOrEmpty(s: NullableString) {
    s.Null? || |s.value| == 0
  }

  /** The username passes the first test of the submit handler. */
  predicate UsernameAccepted(username: NullableString) {
    !IsNullOrEmpty(username) && UsernameMatches(username.value)
  }

  /** The email passes the second test of the submit handler. */
  predicate EmailAccepted(email: NullableString) {
    !IsNullOrEmpty(email) && EmailMatches(email.value)
  }

  /** A username is accepted exactly when it is not null and, less one final '\n', is 4 to 12 of [a-zA-Z0-9_-]. */
  lemma UsernameAcceptedIff(username: NullableString)
    ensures UsernameAccepted(username)
            <==> username.NonNull? && UsernameShape(DropFinalNewline(username.value))
  {
    if username.NonNull? {
      UsernameMatchesIff(username.value);
    }
  }

  /** For input without a newline, the username rule is exactly the length bound and the character class. */
  lemma UsernameAcceptedWithoutNewline(username: string)
    requires Newline !in username
    ensures UsernameAccepted(NonNull(username))
            <==> 4 <= |username| <= 12
                 && forall i :: 0 <= i < |username| ==> IsUsernameChar(username[i])
  {
    UsernameAcceptedIff(NonNull(username));
    if |username| > 0 {
      assert username[|username| - 1] in username;
    }
  }

  /** An email is accepted exactly when it is not null and, less one final '\n', has the email layout. */
  lemma EmailAcceptedIff(email: NullableString)
    ensures EmailAccepted(email)
            <==> email.NonNull? && EmailLayout(DropFinalNewline(email.value))
  {
    if email.NonNull? {
      EmailMatchesIff(email.value);
    }
  }

  /** The key of the form's error dictionary that the error label shows. */
  const ErrorKey: string := "errorMessage"

  const UsernameMessage: string := "Please enter a valid username."

  const EmailMessage: string := "Please enter a valid email."

  /** Which way a submission goes. */
  datatype Verdict = BadUsername | BadEmail | Accepted

  /**
   * The decision of the submit handler: the username is tested first, and
   * the email only when the username passed.
   */
  function Validate(username: NullableString, email: NullableString): (v: Verdict)
    ensures v == BadUsername
            <==> !(username.NonNull? && UsernameShape(DropFinalNewline(username.value)))
    ensures v == BadEmail
            <==> username.NonNull? && UsernameShape(DropFinalNewline(username.value))
                 && !(email.NonNull? && EmailLayout(DropFinalNewline(email.value)))
    ensures v == Accepted
            <==> username.NonNull? && UsernameShape(DropFinalNewline(username.value))
                 && email.NonNull? && EmailLayout(DropFinalNewline(email.value))
  {
    UsernameAcceptedIff(username);
    EmailAcceptedIff(email);
    if !UsernameAccepted(username) then BadUsername
    else if !EmailAccepted(email) then BadEmail
    else Accepted
  }

  /** The message the form shows for a rejected submission. */
  function Message(v: Verdict): string
    requires v != Accepted
  {
    if v == BadUsername then UsernameMessage else EmailMessage
  }

  /**
   * The error dictionary after a submission with verdict v: a rejection
   * writes its message under ErrorKey and leaves every other entry as it was;
   * an acceptance clears the dictionary.
   */
  function ErrorsAfter(errors: map<string, string>, v: Verdict): (r: map<string, string>)
    ensures v == Accepted ==> r == map[]
    ensures v != Accepted ==> ErrorKey in r && r[ErrorKey] == Message(v)
    ensures v != Accepted ==> r.Keys == errors.Keys + {ErrorKey}
    ensures v != Accepted ==> forall k :: k in errors && k != ErrorKey ==> r[k] == errors[k]
  {
    if v == Accepted then map[] else errors[ErrorKey := Message(v)]
  }

  /** The account record the form edits. */
  class Account {
    var username: NullableString
    var email: NullableString

    constructor (username: NullableString, email: NullableString)
      ensures this.username == username && this.email == email
    {
      this.username := username;
      this.email := email;
    }
  }

  /** The view-model behind the account form. */
  class AccountViewModel {
    var account: Account?
    var username: NullableString
    var email: NullableString
    var errors: map<string, string>

    /** A fresh view-model holding the given account, with nothing entered yet. */
    constructor (account: Account?)
      ensures this.account == account
      ensures username == Null && email == Null && errors == map[]
    {
      this.account := account;
      username := Null;
      email := Null;
      errors := map[];
    }

    /**
     * The submit handler.  It never changes the entered username or email or
     * which account is held.  The error dictionary becomes ErrorsAfter of the
     * verdict; the account's username and email take the entered values when
     * both are accepted and are left alone otherwise.  When both are accepted
     * but no account is held, the source dereferences null after clearing the
     * errors: nullReference reports that case, and then nothing else changes.
     */
    method Submit() returns (nullReference: bool)
      modifies this`errors, account
      ensures username == old(username) && email == old(email) && account == old(account)
      ensures errors == ErrorsAfter(old(errors), Validate(username, email))
      ensures nullReference <==> Validate(username, email) == Accepted && account == null
      ensures account != null && Validate(username, email) == Accepted
              ==> account.username == username && account.email == email
      ensures account != null && Validate(username, email) != Accepted
              ==> account.username == old(account.username) && account.email == old(account.email)
    {
      if IsNullOrEmpty(username) || !UsernameMatches(username.value) {
        errors := errors[ErrorKey := UsernameMessage];
        return false;
      }
      if IsNullOrEmpty(email) || !EmailMatches(email.value) {
        errors := errors[ErrorKey := EmailMessage];
        return false;
      }
      errors := map[];
      if account == null {
        return true;
      }
      account.username := username;
      account.email := email;
      nullReference := false;
    }
  }
}
