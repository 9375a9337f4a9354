/**
 * The submit handler applied to concrete input: the values the tutorial
 * seeds its account with, a few rejected entries, and the trailing-newline
 * input that .NET's `$` lets through.
 */
module TutorialValues {
  import opened Patterns
  import opened DatabindingExample

  /** The domain of the seeded email, "163.com", matches the domain pattern. */
  lemma SeedDomainMatches()
    ensures DomainMatches("163.com")
  {
    var d := "163.com";
    assert d[3] == '.' && d[..3] == "163" && d[4..] == "com";
    assert WordRuns("163", DomainSeparators) && WordRuns("com", DomainSeparators);
  }

  /** The email the tutorial seeds its account with passes the email test. */
  lemma SeedEmailAccepted()
    ensures EmailAccepted(NonNull("clark_ya@163.com"))
  {
    var e := "clark_ya@163.com";
    assert WordRuns("clark_ya", LocalSeparators);
    SeedDomainMatches();
    assert e[8] == '@' && e[..8] == "clark_ya" && e[9..] == "163.com";
    assert EmailBodyMatches(e);
  }

  /** The account the tutorial starts with, "test" and "clark_ya@163.com", would pass the form. */
  lemma SeedAccountAccepted()
    ensures Validate(NonNull("test"), NonNull("clark_ya@163.com")) == Accepted
  {
    assert UsernameMatches("test");
    SeedEmailAccepted();
  }

  /** A final '\n' does not stop the username test: "test\n" is accepted. */
  lemma TrailingNewlineUsernameAccepted()
    ensures UsernameAccepted(NonNull("test\n"))
  {
    UsernameAcceptedIff(NonNull("test\n"));
    assert DropFinalNewline("test\n") == "test";
  }

  /** Three characters are too few, whatever the email. */
  lemma ShortUsernameRejected(email: NullableString)
    ensures Validate(NonNull("abc"), email) == BadUsername
  {
    UsernameAcceptedWithoutNewline("abc");
  }

  /** An email with no '.' after its '@' is rejected. */
  lemma UndottedDomainRejected()
    ensures Validate(NonNull("test"), NonNull("test@host")) == BadEmail
  {
    UsernameAcceptedWithoutNewline("test");
    var e := "test@host";
    assert forall j :: 0 <= j < |e| ==> e[j] != '.';
    EmailAcceptedIff(NonNull(e));
  }

  /** The form as the tutorial wires it: a rejected submit, then an accepted one. */
  method SubmitScenario()
  {
    var account := new Account(NonNull("test"), NonNull("clark_ya@163.com"));
    var vm := new AccountViewModel(account);

    vm.username := NonNull("abc");
    vm.email := NonNull("abc");
    ShortUsernameRejected(vm.email);
    var nullReference := vm.Submit();
    assert !nullReference;
    assert vm.errors == map[ErrorKey := UsernameMessage];
    assert account.username == NonNull("test");

    vm.username := NonNull("test");
    vm.email := NonNull("clark_ya@163.com");
    SeedAccountAccepted();
    nullReference := vm.Submit();
    assert !nullReference && vm.errors == map[];
    assert account.username == NonNull("test") && account.email == NonNull("clark_ya@163.com");
  }
}
