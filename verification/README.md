# Bank of Diddy account registry and signup relay — a Dafny model

The repository has two pieces of logic:

* `database.cpp` is the bank's user registry (`BankDatabase` and `User`).
  It keeps a list of users and a table from IFSC branch codes to bank names.
  Registration runs a fixed chain of checks and appends at most one user.
  Login looks up the first user with a given username.
  Users are stored one per line as nine `|`-separated fields.
  IFSC entries are stored as `code|bank` lines.
* `server.js` handles `POST /signup`.
  It passes the six form fields, in a fixed order, to a registration executable.
  It turns the executable's output into an HTTP status and a JSON body.

The model is written with pure functions over immutable values. The registry state is
`BankDb(users: seq<User>, ifscBanks: map<string, string>)`. Every operation
returns a new value instead of changing an object.

Modules, one per concern:

| file | module | models |
|---|---|---|
| `optional.dfy` | `Optional` | the "found / not found" result of the lookups |
| `cpp_text.dfy` | `CppText` | ASCII character classes, `::toupper`, `std::string::find`, `std::getline` with a delimiter |
| `user.dfy` | `UserRecord` | `User`, its constructors, `toString` / `fromString` |
| `validation.dfy` | `Validation` | the account-number, IFSC and email format checks |
| `ifsc.dfy` | `IfscTable` | the seeded IFSC table, `isIFSCValid`, `getBankName`, IFSC line parsing and loading |
| `registry.dfy` | `Registry` | `registerUser`, `authenticateUser`, `getUser`, the `is*Exists` lookups, result messages, user-file parsing |
| `report.dfy` | `RegistrationReport` | the bank line the menu prints after a registration (see Findings) |
| `js_text.dfy` | `JsText` | JavaScript `trim`, `startsWith`, `indexOf`, `replace` with a string pattern |
| `signup.dfy` | `Signup` | the `/signup` callback: argument order and the classification of the output |

Facts about `server.js` that the model follows:

* The server does not reject a request with missing fields before running the executable.
* The server removes the first `ERROR: ` anywhere in the trimmed output, not only a leading one.
* Output that matches neither `SUCCESS` nor `ERROR: ` gets status 400, carrying the trimmed output as the message. It is not treated as a server error.
* There is no timeout on the executable.

The two files are modelled separately. The C++ `main` reads its input from the
console and never prints `SUCCESS` or `ERROR:`, so the two are not composed.

## Model

| member | source | states |
|---|---|---|
| CppText.FirstIndexOf | database.cpp:119-120 | `find` of a character returns nothing exactly when the character is absent; otherwise it returns the first position holding it |
| CppText.GetlineTokens | database.cpp:50-55 | `getline` on `\|` gives no token for empty input; otherwise it gives one token per separator plus one, minus one when the text ends in a separator; no token holds a separator |
| CppText.GetlineJoin | database.cpp:50-55 | separator-free pieces with a non-empty last piece are exactly the tokens `getline` reads back from their join |
| UserRecord.ToString | database.cpp:40-45 | the stored line is never empty and holds at least the eight field separators |
| UserRecord.FromString | database.cpp:47-70 | the `getline` tokens of the line on `\|`; with nine or more, the first nine fill the fields and the flag is on exactly when the eighth token is `1`; otherwise the default user |
| UserRecord.NewUser | database.cpp:27-38 | an active user with a zero balance, the six arguments stored as given, and the creation time passed in as text |
| UserRecord.FromStringToString | database.cpp:40-70 | reading back a stored line recovers every field and the activity flag, provided no field contains `\|` and the balance text is non-empty |
| UserRecord.FromStringShortLine | database.cpp:25-70 | a line with fewer than eight `\|`, or with exactly eight the last of which ends the line, has fewer than nine tokens and yields the default user: every text field empty, active, and balance `0.000000` (`User()` sets 0.0) |
| UserRecord.ToStringOneLine | database.cpp:40-45 | a user whose fields hold no line break is stored on a line without a line break |
| CppText.UpperChar | database.cpp:209 | `::toupper` in the C locale: a lower-case ASCII letter becomes its upper-case form, every other character is unchanged, and digits stay digits |
| CppText.Upper | database.cpp:208-209 | `std::transform` with `::toupper` keeps the length and upper-cases each character at its own position |
| Validation.ValidAccountNumber | database.cpp:130-134 | the account number is 10 to 12 ASCII digits and nothing else |
| Validation.AccountNumberBoundaries | database.cpp:130-134 | 10 and 12 digits pass; 9 or 13 digits, or a letter among 10 characters, are refused |
| Validation.ValidIfscCode | database.cpp:136-140 | the code is 4 upper-case ASCII letters followed by 7 ASCII digits |
| Validation.IfscCodeBoundaries | database.cpp:136-140 | `BODD0000001` passes; a lower-case code, a digit among the first four, or 10 characters are refused |
| Validation.IfscFormatIgnoresCase | database.cpp:207-211 | after upper-casing, an IFSC code passes the format check iff it is 4 ASCII letters of either case followed by 7 ASCII digits |
| Validation.UpperKeepsValidIfsc | database.cpp:136-140 | upper-casing leaves a well-formed IFSC code unchanged |
| Validation.ValidEmail | database.cpp:142-145 | an accepted address splits as local@domain.tld with the regex's character classes and a TLD of 2 or more letters |
| Validation.ValidEmailComplete | database.cpp:142-145 | every address with such a split is accepted, so the check is exactly the regular expression |
| Validation.EmailNeedsTwoLetterDomain | database.cpp:142-145 | `a@b.c` is refused because its top-level domain has one letter; `a@b.co` is accepted |
| IfscTable.InitialBanks | database.cpp:90-99 | the seeded table's keys are exactly the eight listed codes |
| IfscTable.InitialCodesWellFormed | database.cpp:90-99 | every seeded code is in the IFSC format that registration demands |
| IfscTable.IsIfscValid | database.cpp:168-170 | a code is valid exactly when it is a key of the table, compared case-sensitively |
| IfscTable.GetBankName | database.cpp:172-175 | a known code gives its bank; an unknown code gives `Unknown Bank` |
| IfscTable.ParseIfscLine | database.cpp:119-124 | a line without `\|` gives no entry; otherwise the line splits at its first `\|` into a `\|`-free code and the rest as the bank name |
| IfscTable.ParseIfscLineRoundTrip | database.cpp:104-124 | the `code\|bank` line written for an entry parses back to that entry, even if the bank name holds `\|` |
| IfscTable.LoadIfscLine | database.cpp:119-124 | one pass of the loading loop: a line with a `\|` sets its code to its bank, overwriting any earlier entry; any other line leaves the table as it was |
| IfscTable.LoadIfscLines | database.cpp:114-128 | after loading, a code named by some line maps to the bank of the last such line; every other code keeps its earlier value or stays absent |
| IfscTable.BankNameAfterLoad | database.cpp:114-128 | after loading, the last line written for a code decides the name `getBankName` returns for it |
| IfscTable.LoadLineWithoutSeparator | database.cpp:119-120 | a line without `\|` leaves the table unchanged |
| Registry.IsAccountNumberExists | database.cpp:147-152 | true iff some user has that account number |
| Registry.IsUsernameExists | database.cpp:154-159 | true iff some user has that username |
| Registry.IsEmailExists | database.cpp:161-166 | true iff some user has that email |
| Registry.FindByUsername | database.cpp:254-257 | returns the position of the first user with that username, or nothing iff no user has it |
| Registry.GetUser | database.cpp:274-281 | returns the first user with that username, or nothing iff the name is unknown |
| Registry.RegisterUser | database.cpp:189-244 | the result is the first failing check (`FirstFailure`); a failure leaves the database unchanged; success appends exactly one active user with the upper-cased IFSC code, the other five arguments unchanged, and a zero balance |
| Registry.FirstFailureAt | database.cpp:202-237 | the first failing check is the one at position k iff every earlier check passes and check k fails |
| Registry.RegisterReportsFirstFailingCheck | database.cpp:196-237 | registration reports check k iff all earlier checks pass and k fails; it reports success iff all eight checks pass |
| Registry.RegisterEmptyFieldsFirst | database.cpp:196-200 | `EmptyFields` is reported exactly when one of the six arguments is empty, whatever else is wrong |
| Registry.RegisterIgnoresIfscCase | database.cpp:207-211 | registering with an IFSC code gives the same result and database as registering with its upper-case form |
| Registry.RegisterPreservesUniqueKeys | database.cpp:219-232 | if account numbers, usernames and emails are pairwise distinct before registration, they are still distinct after it |
| Registry.RegisterKeepsExistingUsers | database.cpp:239-243 | the old users are a prefix of the new list, at most one user is added, and the IFSC table is unchanged |
| Registry.AuthenticateUser | database.cpp:253-272 | the result depends on the first user with that username: `UserNotFound` if there is none; `AccountInactive` if that user is inactive, before any password check; `InvalidCredentials` if the password differs; otherwise success |
| Registry.RegisteredUserCanLogIn | database.cpp:239-272 | right after registering, the given password logs in, any other password is refused, and `getUser` returns the new record |
| Registry.RegistrationResultMessage | database.cpp:335-358 | the fixed message for each of the nine registration results |
| Registry.LoginResultMessage | database.cpp:360-373 | the fixed message for each of the four login results |
| Registry.RegistrationMessagesDistinct | database.cpp:335-358 | different registration results get different messages |
| Registry.LoginMessagesDistinct | database.cpp:360-373 | different login results get different messages |
| Registry.ParseUserLines | database.cpp:300-312 | `loadDatabase` reads one user per non-empty line, in order, each by `fromString` |
| Registry.UserLines | database.cpp:290-298 | `saveDatabase` writes one `toString` line per user, in order |
| Registry.SaveDatabase | database.cpp:290-298 | the user file is each user's `toString` line followed by a line break, in order: it is empty iff there are no users and holds at least one line break per user |
| Registry.LoadDatabase | database.cpp:300-312 | the file is split into lines by `getline`, and each non-empty line is read by `fromString`; there are at most as many users as lines |
| Registry.SaveLoadUsers | database.cpp:290-312 | loading the text that was saved gives back the same users, when no field holds `\|` or a line break and no balance text is empty |
| Registry.Open | database.cpp:81-84 | the opened database has at most one user per line break of the user file, plus one, and still holds every seeded IFSC code |
| RegistrationReport.ReportedBankAsWritten | database.cpp:415-420 | a bank line is printed iff registration succeeded; this version looks up the code as the user typed it |
| RegistrationReport.LowerCaseApplicantRegisters | database.cpp:189-244 | an applicant with the lower-case code `bodd0000001` registers successfully on a fresh database |
| RegistrationReport.AsWrittenMissesLowerCaseCodes | database.cpp:415-420 | if a successful registration used a code with a lower-case letter, and the table holds only well-formed codes, the menu reports `Unknown Bank` |
| RegistrationReport.AsWrittenReportsUnknownBank | database.cpp:415-420 | the lower-case applicant registers on a fresh database, yet the menu reports `Unknown Bank` |
| RegistrationReport.ReportedBank | database.cpp:415-420 | the corrected bank line, looked up with the upper-cased code; it is printed iff registration succeeded |
| RegistrationReport.ReportedBankIsStoredUsersBank | database.cpp:208-243 | after every successful registration, the corrected bank line names the table's bank for the code stored on the new user |
| JsText.Trim | server.js:33 | the result is the input with its leading and trailing ECMAScript whitespace removed, and it neither starts nor ends with whitespace |
| JsText.TrimUnique | server.js:33 | only one string is a trim of a given input |
| JsText.TrimIgnoresPadding | server.js:33 | whitespace added on either side does not change the trim |
| JsText.TrimIdempotent | server.js:33 | trimming twice gives the same result as trimming once |
| JsText.StartsWith | server.js:34 | `startsWith`: the pattern is no longer than the text and equals its prefix of that length |
| JsText.IndexOf | server.js:38 | returns the first occurrence of the pattern at or after `from`, or nothing iff there is no occurrence there |
| JsText.RemoveFirst | server.js:38 | `replace` with a string pattern and an empty replacement removes only the first occurrence, wherever it is; with no occurrence the input is unchanged |
| JsText.RemoveFirstPrefix | server.js:38 | a pattern at the very start is what gets removed |
| Signup.ExecArgs | server.js:27 | the executable gets exactly six arguments: account number, IFSC code, full name, email, username and password, at positions 0 to 5 |
| Signup.ExecArgsRoundTrip | server.js:15-27 | the form can be read back from the six arguments: each field reaches its own position, so none is lost or swapped |
| Signup.SignupResponse | server.js:27-39 | a failed run gives 500 with `Server error occurred.` whatever was printed; otherwise the reply is success iff the trimmed output starts with `SUCCESS`; success is exactly status 200 with the fixed confirmation; every other reply is 400 |
| Signup.SignupIgnoresPadding | server.js:33-35 | whitespace around the output never changes the reply |
| Signup.SignupIgnoresTrailingPadding | server.js:33 | whitespace after the output never changes the reply |
| Signup.SignupReportsReason | server.js:36-38 | `ERROR: <reason>` followed by any whitespace gets 400 with exactly the reason |
| Signup.SignupRemovesFirstTagAnywhere | server.js:36-38 | if the first `ERROR: ` is in the middle of the output, the message is the text before it joined to the text after it |
| Signup.SignupRelaysOtherOutput | server.js:36-38 | output that does not start with `SUCCESS` and holds no `ERROR: ` is returned, trimmed, as the 400 message |
| Signup.SignupConfirms | server.js:33-35 | `SUCCESS\n` gets 200, success, and `Account created successfully!` |
| Signup.SignupCutsInteriorTag | server.js:36-38 | `Signup ERROR: failed` gets 400 with the message `Signup failed` |

## Left out

- File I/O is left out: opening, reading, writing and closing `bank_users.db` and `ifsc_codes.db`, and the saving destructor. Only the text written and its parsing are modelled. The user file's content is a text parameter. The IFSC file's content is a sequence of lines.
- Seeding the table also writes the IFSC file (`saveIFSCCodes`). `Open` takes the IFSC lines as a parameter instead of rereading that file.
- The balance is a `double`. It is carried as its decimal text, and its default is `0.000000`. The number formatting of `std::to_string`, the parsing of `std::stod` (and its exception on a non-numeric token) and `updateUserBalance` are not modelled, because they are floating point.
- `dateCreated` comes from the wall clock and `localtime`. It is an opaque text parameter of `RegisterUser`.
- `UserRecord.FromStringToString` requires a non-empty balance text. `std::to_string` never produces empty text. An empty balance would end the line with `|`, and `getline` would then give only eight tokens.
- Registry.SaveLoadUsers: requires that no field holds a line break. `registerUser` does not check `fullName`, `username` or `password`, so a line break can enter one of them. Such a user is saved over two lines and loaded back as other users.
- `registerUser` also does not check `fullName`, `username` or `password` for `|`, and `main` reads them with `getline`, which keeps `|`. A user with `|` in one of them registers, but is not `Storable`: after a save and reload, the fields after it shift by one token, so the user can no longer log in under their username. The model states the round trip only for `|`-free fields.
- `displayAllUsers` and the interactive `main` menu are left out, because they are console I/O. The one exception is the bank line printed after a registration (see Findings).
- `::toupper` is modelled for the "C" locale: only ASCII `a`–`z` change. Other locales are not modelled.
- Characters are Unicode scalar values. The byte-level behaviour of `std::regex` on multi-byte text is not modelled.
- The `default:` arms of the two message switches cannot be reached with the enum classes, so they are not modelled.
- Registry.AuthenticateUser: "never mutates state" holds because the database is an immutable value. No separate lemma states it.
- Express setup, static file serving, body parsing, `execFile` process spawning, `console.error` logging and `listen` are left out, because they are I/O and a process boundary. Whether the run failed is a boolean parameter.
- A request body missing one of the six keys is not modelled. In JavaScript the field is then `undefined` when it reaches `execFile`. `SignupForm` holds six strings.
- `String.prototype.replace` gives special meaning to `$` in the replacement text. The server's replacement is empty, so only removal is modelled.
- `script.js` is entirely presentation: DOM effects, timers and colour cycling. It is not part of this model.

## Findings

| source | as written | input that shows it | evidently intended | confidence | as-written member | corrected member |
|---|---|---|---|---|---|---|
| database.cpp:419 | after a successful registration, the menu prints `getBankName(ifscCode)` with the code exactly as typed, while `registerUser` checked and stored the upper-cased code | on a fresh database, account `1234567890`, IFSC `bodd0000001`, email `asha@bank.in` and non-empty other fields: registration succeeds, but the printed bank is `Unknown Bank` | look up the upper-cased code, the one that was validated and stored | high; not executed | RegistrationReport.AsWrittenReportsUnknownBank | RegistrationReport.ReportedBankIsStoredUsersBank |
