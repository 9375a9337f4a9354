# Account form validation of the Loxodon data-binding tutorial

This project models the submit handler of the data-binding tutorial's account
form, `AccountViewModel.OnSubmit`. The handler reads the username and email
entered in the form. It tests the username against
`^[a-zA-Z0-9_-]{4,12}$` and then the email against
`^\w+([-+.]\w+)*@\w+([-.]\w+)*\.\w+([-.]\w+)*$`. On the first failure it writes
an error message under the `"errorMessage"` key of the view-model's error
dictionary and returns. When both tests pass, it clears the dictionary and
copies both values into the view-model's `Account`.

The model has three files:

- `patterns.dfy` (module `Patterns`) holds the two regular expressions as
  recognisers over character sequences. Each recogniser follows the shape of
  its pattern: a counted character class; word runs joined by single
  separators; a concatenation matched by choosing a split point. Lemmas tie
  each recogniser, in both directions, to a declarative description of the
  strings it accepts. For the email, that description covers the first and
  last characters, the single `@`, the `.` after it, and which characters may
  stand side by side.
- `account_view_model.dfy` (module `DatabindingExample`) holds C# nullable
  strings, the two tests as the handler writes them (`string.IsNullOrEmpty`
  then `Regex.IsMatch`), and the decision `Validate`, which tests the username
  first. It also holds the error dictionary after a submission
  (`ErrorsAfter`), and the classes `Account` and `AccountViewModel`. Their
  method `Submit` is proved against `Validate` and `ErrorsAfter`.
- `tutorial_values.dfy` (module `TutorialValues`) applies the rules to
  concrete input. It covers the values the tutorial seeds its account with and
  some rejected entries. It also shows that a username with one trailing
  newline (`"test\n"`) is accepted, because .NET's `$` also matches just
  before a final `\n`. The model reproduces that behaviour exactly. The lemmas
  say where it matters: the plain "4 to 12 characters of `[a-zA-Z0-9_-]`" rule
  holds for input without a newline (`UsernameAcceptedWithoutNewline`).

## Model

| member | source | states |
|---|---|---|
| `Patterns.RepeatUsernameCharIff` | Loxdon/Assets/LoxodonFramework/Tutorials/Scripts/DatabindingExample.cs:120 | the counted class `[a-zA-Z0-9_-]{lo,hi}` accepts exactly the strings of length lo..hi whose every character is in the class |
| `Patterns.UsernameMatchesIff` | Loxdon/Assets/LoxodonFramework/Tutorials/Scripts/DatabindingExample.cs:120 | the anchored username pattern accepts s exactly when s, less one final `\n`, is 4 to 12 characters from `[a-zA-Z0-9_-]` |
| `DatabindingExample.UsernameAcceptedIff` | Loxdon/Assets/LoxodonFramework/Tutorials/Scripts/DatabindingExample.cs:120 | the username test (not null or empty, and matching) passes exactly when the username is non-null and, less one final `\n`, has the username shape |
| `DatabindingExample.UsernameAcceptedWithoutNewline` | Loxdon/Assets/LoxodonFramework/Tutorials/Scripts/DatabindingExample.cs:120 | for a username without a newline: accepted exactly when it is 4 to 12 characters long and each is an ASCII letter, digit, `_` or `-` |
| `Patterns.WordRunsRestIff` | Loxdon/Assets/LoxodonFramework/Tutorials/Scripts/DatabindingExample.cs:126 | the tail `\w*([S]\w+)*` of a word run accepts exactly the strings that are empty or end in a word character, contain only word characters and separators from S, and have no two non-word characters side by side |
| `Patterns.WordRunsIffJoined` | Loxdon/Assets/LoxodonFramework/Tutorials/Scripts/DatabindingExample.cs:126 | `\w+([S]\w+)*` accepts exactly the strings that begin and end with a word character, use only word characters and separators from S, and never put two separators side by side |
| `Patterns.DomainMatchesIff` | Loxdon/Assets/LoxodonFramework/Tutorials/Scripts/DatabindingExample.cs:126 | the domain part `\w+([-.]\w+)*\.\w+([-.]\w+)*` accepts exactly the word runs joined by `-` or `.` that contain at least one `.` |
| `Patterns.EmailBodyMatchesIff` | Loxdon/Assets/LoxodonFramework/Tutorials/Scripts/DatabindingExample.cs:126 | the email pattern before `$` accepts exactly the strings that split at an `@` into word runs joined by `-+.` and a domain of word runs joined by `-.` containing a `.` |
| `Patterns.ShapeGivesLayout` | Loxdon/Assets/LoxodonFramework/Tutorials/Scripts/DatabindingExample.cs:126 | a string split as the pattern requires begins and ends with a word character, has exactly one `@` with a `.` and no `+` after it, and never puts two of `-+.@` side by side |
| `Patterns.LayoutGivesShape` | Loxdon/Assets/LoxodonFramework/Tutorials/Scripts/DatabindingExample.cs:126 | conversely, a string with that layout splits at its `@` into the two parts the pattern requires |
| `Patterns.EmailShapeIffLayout` | Loxdon/Assets/LoxodonFramework/Tutorials/Scripts/DatabindingExample.cs:126 | the split description and the character-by-character layout of an accepted email are equivalent |
| `Patterns.EmailMatchesIff` | Loxdon/Assets/LoxodonFramework/Tutorials/Scripts/DatabindingExample.cs:126 | the anchored email pattern accepts s exactly when s, less one final `\n`, has the email layout |
| `DatabindingExample.EmailAcceptedIff` | Loxdon/Assets/LoxodonFramework/Tutorials/Scripts/DatabindingExample.cs:126 | the email test (not null or empty, and matching) passes exactly when the email is non-null and, less one final `\n`, has the email layout |
| `DatabindingExample.Validate` | Loxdon/Assets/LoxodonFramework/Tutorials/Scripts/DatabindingExample.cs:120-130 | a bad username is reported whatever the email is, so a submission with both fields invalid reports the username; a bad email is reported only after the username passed; acceptance needs both, each stated through the declarative shapes |
| `DatabindingExample.ErrorsAfter` | Loxdon/Assets/LoxodonFramework/Tutorials/Scripts/DatabindingExample.cs:120-132 | a rejection writes its message (username or email) under `"errorMessage"`, adds no other key and keeps every other entry; an acceptance leaves the dictionary empty |
| `DatabindingExample.Account.constructor` | Loxdon/Assets/LoxodonFramework/Tutorials/Scripts/DatabindingExample.cs:46-62 | an account holds the given username and email |
| `DatabindingExample.AccountViewModel.constructor` | Loxdon/Assets/LoxodonFramework/Tutorials/Scripts/DatabindingExample.cs:76-106 | a new view-model holds the given account, a null username and email, and an empty error dictionary |
| `DatabindingExample.AccountViewModel.Submit` | Loxdon/Assets/LoxodonFramework/Tutorials/Scripts/DatabindingExample.cs:118-135 | the entered username and email and the held account are never changed; the errors become `ErrorsAfter` of the verdict; the account takes both entered values exactly when both are accepted and is untouched otherwise; with no account held, an accepted submit clears the errors and then reports the null dereference |
| `TutorialValues.SeedDomainMatches` | Loxdon/Assets/LoxodonFramework/Tutorials/Scripts/DatabindingExample.cs:126 | `"163.com"` matches the domain part of the email pattern |
| `TutorialValues.SeedEmailAccepted` | Loxdon/Assets/LoxodonFramework/Tutorials/Scripts/DatabindingExample.cs:172 | the seeded email `"clark_ya@163.com"` passes the email test |
| `TutorialValues.SeedAccountAccepted` | Loxdon/Assets/LoxodonFramework/Tutorials/Scripts/DatabindingExample.cs:167-175 | the seeded account's username `"test"` and email `"clark_ya@163.com"` would pass the form |
| `TutorialValues.TrailingNewlineUsernameAccepted` | Loxdon/Assets/LoxodonFramework/Tutorials/Scripts/DatabindingExample.cs:120 | `"test\n"` passes the username test, since `$` also matches before a final newline |
| `TutorialValues.ShortUsernameRejected` | Loxdon/Assets/LoxodonFramework/Tutorials/Scripts/DatabindingExample.cs:120-124 | a three-character username is rejected whatever the email |
| `TutorialValues.UndottedDomainRejected` | Loxdon/Assets/LoxodonFramework/Tutorials/Scripts/DatabindingExample.cs:126-130 | `"test@host"`, with no `.` after the `@`, is rejected as an email once the username passed |

## Left out

- Patterns.IsWordChar: `\w` is the ASCII class `[A-Za-z0-9_]`. .NET's `\w` also matches Unicode letters, combining marks, decimal digits and connector punctuation, so the model rejects some emails that .NET accepts (for example with accented letters).
- Strings are sequences of Dafny characters (Unicode scalar values), not UTF-16 code units. The regex timeout and culture settings of `Regex.IsMatch` are not modelled.
- The change notifications raised by the observable base classes (`ObservableObject.Set`, `ViewModelBase`, `ObservableDictionary`) are not modelled: their source is not part of this model. Properties are plain fields and the error dictionary is a map that is assigned and cleared.
- The `Errors` setter, which replaces the whole dictionary, is not modelled; the handler only writes and clears the dictionary it holds.
- The account's `ID`, `Password`, `Birthday`, `OBJ` and `Address` members are not modelled: the handler neither reads nor writes them.
- A null dereference at line 133 raises an exception in C#. The model reports it through `Submit`'s `nullReference` result instead, with the state as it is at that point (errors cleared, account untouched).
- `OnUsernameValueChanged` and `OnEmailValueChanged` only write to the engine's log; they are left out.
- The view's `Awake` and `Start` (binding service start-up, localisation, and the binding sets that wire widgets to the view-model) are engine plumbing over libraries that are not part of this model. The birthday text depends on the current date and date formatting. `TutorialValues.SubmitScenario` replays only the part that matters here: an account with the seeded values, a view-model holding it, and two submissions.
- `Toast.cs` is a UI widget (view-group calls, animations, coroutines, object destruction) and is not part of this model.
