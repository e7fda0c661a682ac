/**
 `BankDatabase`: the list of registered users and the IFSC table, with
 registration (a fixed chain of checks that appends at most one user),
 login, lookup by username, and the text for each result.
 */
module Registry {

  import opened Optional
  import opened CppText
  import opened Validation
  import opened UserRecord
  import opened IfscTable

  datatype BankDb = BankDb(users: seq<User>, ifscBanks: Banks)

  /** The six arguments of `registerUser`, in their order. */
  datatype Applicant = Applicant(
    accountNumber: string,
    ifscCode: string,
    fullName: string,
    email: string,
    username: string,
    password: string)

  datatype RegistrationResult =
    | Success
    | InvalidAccountNumber
    | InvalidIfscCode
    | InvalidEmail
    | AccountNumberExists
    | UsernameExists
    | EmailExists
    | IfscNotFound
    | EmptyFields

  datatype LoginResult = LoginSuccess | InvalidCredentials | AccountInactive | UserNotFound

  /** The outcome of a registration together with the database after it. */
  datatype Registration = Registration(result: RegistrationResult, db: BankDb)

  /** The three user attributes that registration keeps unique. */
  datatype Key = AccountNumberKey | UsernameKey | EmailKey

  function KeyOf(u: User, key: Key): string
  {
    match key
    case AccountNumberKey => u.accountNumber
    case UsernameKey => u.username
    case EmailKey => u.email
  }

  /** `std::any_of` over the users, comparing one attribute. */
  function AnyWithKey(users: seq<User>, key: Key, value: string): (found: bool)
    ensures found <==> exists i :: 0 <= i < |users| && KeyOf(users[i], key) == value
  {
    if |users| == 0 then false
    else if KeyOf(users[0], key) == value then true
    else
      assert forall i :: 1 <= i < |users| ==> users[i] == users[1..][i - 1];
      AnyWithKey(users[1..], key, value)
  }

  /** `isAccountNumberExists`. */
  function IsAccountNumberExists(users: seq<User>, accountNumber: string): (found: bool)
    ensures found <==> exists u :: u in users && u.accountNumber == accountNumber
  {
    AnyWithKey(users, AccountNumberKey, accountNumber)
  }

  /** `isUsernameExists`. */
  function IsUsernameExists(users: seq<User>, username: string): (found: bool)
    ensures found <==> exists u :: u in users && u.username == username
  {
    AnyWithKey(users, UsernameKey, username)
  }

  /** `isEmailExists`. */
  function IsEmailExists(users: seq<User>, email: string): (found: bool)
    ensures found <==> exists u :: u in users && u.email == email
  {
    AnyWithKey(users, EmailKey, email)
  }

  /** `i` is the position of the first user called `username`. */
  ghost predicate IsFirstNamed(users: seq<User>, username: string, i: int)
  {
    && 0 <= i < |users|
    && users[i].username == username
    && forall j :: 0 <= j < i ==> users[j].username != username
  }

  /** `std::find_if` on the username: the position of the first match, or nothing. */
  function FindByUsername(users: seq<User>, username: string): (r: Option<nat>)
    ensures r.None? <==> forall i :: 0 <= i < |users| ==> users[i].username != username
    ensures r.Some? ==> IsFirstNamed(users, username, r.value)
  {
    if |users| == 0 then None
    else if users[0].username == username then Some(0)
    else match FindByUsername(users[1..], username)
      case None => None
      case Some(i) => Some(i + 1)
  }

  /** `getUser`: the first user with that username (the C++ code returns a pointer to it). */
  function GetUser(db: BankDb, username: string): (r: Option<User>)
    ensures r.None? <==> !IsUsernameExists(db.users, username)
    ensures r.Some? ==> exists i :: IsFirstNamed(db.users, username, i) && db.users[i] == r.value
  {
    match FindByUsername(db.users, username)
    case None => None
    case Some(i) => Some(db.users[i])
  }

  predicate AnyFieldEmpty(a: Applicant)
  {
    a.accountNumber == [] || a.ifscCode == [] || a.fullName == [] ||
    a.email == [] || a.username == [] || a.password == []
  }

  /** The checks of `registerUser`, each named by the result it fails with, in the order they run. */
  const CheckOrder: seq<RegistrationResult> :=
    [EmptyFields, InvalidAccountNumber, InvalidIfscCode, InvalidEmail,
     AccountNumberExists, UsernameExists, EmailExists, IfscNotFound]

  /** Whether `a` gets past the check that would otherwise fail with `check`. */
  ghost predicate Passes(db: BankDb, a: Applicant, check: RegistrationResult)
  {
    match check
    case EmptyFields => !AnyFieldEmpty(a)
    case InvalidAccountNumber => ValidAccountNumber(a.accountNumber)
    case InvalidIfscCode => ValidIfscCode(Upper(a.ifscCode))
    case InvalidEmail => EmailMatches(a.email)
    case AccountNumberExists => !exists u :: u in db.users && u.accountNumber == a.accountNumber
    case UsernameExists => !exists u :: u in db.users && u.username == a.username
    case EmailExists => !exists u :: u in db.users && u.email == a.email
    case IfscNotFound => Upper(a.ifscCode) in db.ifscBanks
    case Success => true
  }

  /** Every check before position `k` of `CheckOrder` passes. */
  ghost predicate PassesBefore(db: BankDb, a: Applicant, k: nat)
    requires k <= |CheckOrder|
  {
    forall j :: 0 <= j < k ==> Passes(db, a, CheckOrder[j])
  }

  /** The position of a failure in `CheckOrder`; `Success` comes after all of them. */
  function Rank(r: RegistrationResult): (k: nat)
    ensures k <= |CheckOrder|
    ensures k < |CheckOrder| ==> CheckOrder[k] == r
  {
    match r
    case EmptyFields => 0
    case InvalidAccountNumber => 1
    case InvalidIfscCode => 2
    case InvalidEmail => 3
    case AccountNumberExists => 4
    case UsernameExists => 5
    case EmailExists => 6
    case IfscNotFound => 7
    case Success => 8
  }

  /** The result of the first check from position `k` of `CheckOrder` on that fails; `Success` if none does. */
  ghost function FirstFailure(db: BankDb, a: Applicant, k: nat): (r: RegistrationResult)
    requires k <= |CheckOrder|
    ensures k <= Rank(r)
    decreases |CheckOrder| - k
  {
    if k == |CheckOrder| then Success
    else if !Passes(db, a, CheckOrder[k]) then CheckOrder[k]
    else FirstFailure(db, a, k + 1)
  }

  /**
   The first failing check is the one at position `k` exactly when all the
   checks before `k` pass and the one at `k` does not.
   */
  lemma {:induction false} FirstFailureAt(db: BankDb, a: Applicant, from: nat, k: nat)
    requires from <= k < |CheckOrder|
    requires PassesBefore(db, a, from)
    ensures FirstFailure(db, a, from) == CheckOrder[k] <==> PassesBefore(db, a, k) && !Passes(db, a, CheckOrder[k])
    decreases |CheckOrder| - from
  {
    assert Rank(CheckOrder[k]) == k;
    if Passes(db, a, CheckOrder[from]) {
      if from < k {
        FirstFailureAt(db, a, from + 1, k);
      }
    } else {
      assert Rank(CheckOrder[from]) == from;
    }
  }

  /** No check fails exactly when all of them pass. */
  lemma {:induction false} FirstFailureSuccess(db: BankDb, a: Applicant, from: nat)
    requires from <= |CheckOrder|
    requires PassesBefore(db, a, from)
    ensures FirstFailure(db, a, from) == Success <==> PassesBefore(db, a, |CheckOrder|)
    decreases |CheckOrder| - from
  {
    if from < |CheckOrder| && Passes(db, a, CheckOrder[from]) {
      FirstFailureSuccess(db, a, from + 1);
    }
  }

  /** `FirstFailure` from the start, written out check by check. */
  lemma FirstFailureUnrolled(db: BankDb, a: Applicant)
    ensures FirstFailure(db, a, 0) ==
      if !Passes(db, a, EmptyFields) then EmptyFields
      else if !Passes(db, a, InvalidAccountNumber) then InvalidAccountNumber
      else if !Passes(db, a, InvalidIfscCode) then InvalidIfscCode
      else if !Passes(db, a, InvalidEmail) then InvalidEmail
      else if !Passes(db, a, AccountNumberExists) then AccountNumberExists
      else if !Passes(db, a, UsernameExists) then UsernameExists
      else if !Passes(db, a, EmailExists) then EmailExists
      else if !Passes(db, a, IfscNotFound) then IfscNotFound
      else Success
  {
    assert FirstFailure(db, a, 8) == Success;
    assert FirstFailure(db, a, 7) == if !Passes(db, a, IfscNotFound) then IfscNotFound else Success;
    assert FirstFailure(db, a, 6) == if !Passes(db, a, EmailExists) then EmailExists else FirstFailure(db, a, 7);
    assert FirstFailure(db, a, 5) == if !Passes(db, a, UsernameExists) then UsernameExists else FirstFailure(db, a, 6);
    assert FirstFailure(db, a, 4) ==
      if !Passes(db, a, AccountNumberExists) then AccountNumberExists else FirstFailure(db, a, 5);
    assert FirstFailure(db, a, 3) == if !Passes(db, a, InvalidEmail) then InvalidEmail else FirstFailure(db, a, 4);
    assert FirstFailure(db, a, 2) == if !Passes(db, a, InvalidIfscCode) then InvalidIfscCode else FirstFailure(db, a, 3);
    assert FirstFailure(db, a, 1) ==
      if !Passes(db, a, InvalidAccountNumber) then InvalidAccountNumber else FirstFailure(db, a, 2);
  }

  /** Each check, as `Passes` states it, is what the corresponding test of `registerUser` computes. */
  lemma PassesComputed(db: BankDb, a: Applicant)
    ensures Passes(db, a, EmptyFields) == !AnyFieldEmpty(a)
    ensures Passes(db, a, InvalidAccountNumber) == ValidAccountNumber(a.accountNumber)
    ensures Passes(db, a, InvalidIfscCode) == ValidIfscCode(Upper(a.ifscCode))
    ensures Passes(db, a, InvalidEmail) == ValidEmail(a.email)
    ensures Passes(db, a, AccountNumberExists) == !IsAccountNumberExists(db.users, a.accountNumber)
    ensures Passes(db, a, UsernameExists) == !IsUsernameExists(db.users, a.username)
    ensures Passes(db, a, EmailExists) == !IsEmailExists(db.users, a.email)
    ensures Passes(db, a, IfscNotFound) == IsIfscValid(db.ifscBanks, Upper(a.ifscCode))
  {
    PassesEmail(db, a);
    PassesLookups(db, a);
  }

  /** The email check, computed by `ValidEmail`. */
  lemma PassesEmail(db: BankDb, a: Applicant)
    ensures Passes(db, a, InvalidEmail) == ValidEmail(a.email)
  {
    ValidEmailComplete(a.email);
  }

  /** The three uniqueness checks, computed by the lookups. */
  lemma PassesLookups(db: BankDb, a: Applicant)
    ensures Passes(db, a, AccountNumberExists) == !IsAccountNumberExists(db.users, a.accountNumber)
    ensures Passes(db, a, UsernameExists) == !IsUsernameExists(db.users, a.username)
    ensures Passes(db, a, EmailExists) == !IsEmailExists(db.users, a.email)
  {
    assert IsAccountNumberExists(db.users, a.accountNumber) <==>
      exists u :: u in db.users && u.accountNumber == a.accountNumber;
    assert IsUsernameExists(db.users, a.username) <==> exists u :: u in db.users && u.username == a.username;
    assert IsEmailExists(db.users, a.email) <==> exists u :: u in db.users && u.email == a.email;
  }

  /**
   `registerUser`. The result is the first check in `CheckOrder` that fails
   (so an empty field is reported before anything else), or `Success` when
   all pass. A failure leaves the database as it was; success appends exactly
   one active user carrying the upper-cased IFSC code and the other five
   arguments unchanged. `dateCreated` stands for the wall-clock time.
   */
  function RegisterUser(db: BankDb, a: Applicant, dateCreated: string): (out: Registration)
    ensures out.result == FirstFailure(db, a, 0)
    ensures out.result != Success ==> out.db == db
    ensures out.result == Success ==>
      out.db == db.(users := db.users + [NewUser(a.accountNumber, Upper(a.ifscCode), a.fullName,
                                                 a.email, a.username, a.password, dateCreated)])
  {
    var upperIfsc := Upper(a.ifscCode);
    FirstFailureUnrolled(db, a);
    PassesComputed(db, a);
    if AnyFieldEmpty(a) then Registration(EmptyFields, db)
    else if !ValidAccountNumber(a.accountNumber) then Registration(InvalidAccountNumber, db)
    else if !ValidIfscCode(upperIfsc) then Registration(InvalidIfscCode, db)
    else if !ValidEmail(a.email) then Registration(InvalidEmail, db)
    else if IsAccountNumberExists(db.users, a.accountNumber) then Registration(AccountNumberExists, db)
    else if IsUsernameExists(db.users, a.username) then Registration(UsernameExists, db)
    else if IsEmailExists(db.users, a.email) then Registration(EmailExists, db)
    else if !IsIfscValid(db.ifscBanks, upperIfsc) then Registration(IfscNotFound, db)
    else
      var user := NewUser(a.accountNumber, upperIfsc, a.fullName, a.email, a.username, a.password,
                          dateCreated);
      Registration(Success, db.(users := db.users + [user]))
  }

  /**
   The result of registration names the check at position `k` exactly when
   every earlier check passes and that one fails; it is `Success` exactly when
   all eight pass.
   */
  lemma RegisterReportsFirstFailingCheck(db: BankDb, a: Applicant, dateCreated: string, k: nat)
    requires k < |CheckOrder|
    ensures RegisterUser(db, a, dateCreated).result == CheckOrder[k] <==>
      PassesBefore(db, a, k) && !Passes(db, a, CheckOrder[k])
    ensures RegisterUser(db, a, dateCreated).result == Success <==> PassesBefore(db, a, |CheckOrder|)
  {
    FirstFailureAt(db, a, 0, k);
    FirstFailureSuccess(db, a, 0);
  }

  /** Registration reports empty fields exactly when one of the six arguments is empty, whatever else is wrong. */
  lemma RegisterEmptyFieldsFirst(db: BankDb, a: Applicant, dateCreated: string)
    ensures RegisterUser(db, a, dateCreated).result == EmptyFields <==> AnyFieldEmpty(a)
  {
    RegisterReportsFirstFailingCheck(db, a, dateCreated, 0);
  }

  /**
   The IFSC code is upper-cased before it is checked and stored, so
   registering with a code in any mix of cases is the same as registering
   with its upper-case form.
   */
  lemma RegisterIgnoresIfscCase(db: BankDb, a: Applicant, dateCreated: string)
    ensures RegisterUser(db, a, dateCreated) == RegisterUser(db, a.(ifscCode := Upper(a.ifscCode)), dateCreated)
  {
    var b := a.(ifscCode := Upper(a.ifscCode));
    UpperIdempotent(a.ifscCode);
    assert Upper(b.ifscCode) == Upper(a.ifscCode);
    assert (a.ifscCode == []) == (b.ifscCode == []);
    assert AnyFieldEmpty(b) == AnyFieldEmpty(a);
  }

  /** No two users share an account number, a username or an email address. */
  ghost predicate UniqueKeys(users: seq<User>)
  {
    forall i, j :: 0 <= i < j < |users| ==>
      && users[i].accountNumber != users[j].accountNumber
      && users[i].username != users[j].username
      && users[i].email != users[j].email
  }

  /** Registration keeps account numbers, usernames and emails unique. */
  lemma RegisterPreservesUniqueKeys(db: BankDb, a: Applicant, dateCreated: string)
    requires UniqueKeys(db.users)
    ensures UniqueKeys(RegisterUser(db, a, dateCreated).db.users)
  {
    var out := RegisterUser(db, a, dateCreated);
    if out.result == Success {
      FirstFailureSuccess(db, a, 0);
      assert PassesBefore(db, a, |CheckOrder|);
      assert Passes(db, a, CheckOrder[4]) && Passes(db, a, CheckOrder[5]) && Passes(db, a, CheckOrder[6]);
      AppendFreshKeepsUnique(db.users, NewUser(a.accountNumber, Upper(a.ifscCode), a.fullName,
                                               a.email, a.username, a.password, dateCreated));
    }
  }

  /** Appending a user whose keys nobody holds keeps the keys unique. */
  lemma AppendFreshKeepsUnique(users: seq<User>, u: User)
    requires UniqueKeys(users)
    requires !exists v :: v in users && v.accountNumber == u.accountNumber
    requires !exists v :: v in users && v.username == u.username
    requires !exists v :: v in users && v.email == u.email
    ensures UniqueKeys(users + [u])
  {
    var all := users + [u];
    forall i, j | 0 <= i < j < |all|
      ensures all[i].accountNumber != all[j].accountNumber
      ensures all[i].username != all[j].username
      ensures all[i].email != all[j].email
    {
      assert all[i] in users;
    }
  }

  /** Registration never removes or alters a user that was already there. */
  lemma RegisterKeepsExistingUsers(db: BankDb, a: Applicant, dateCreated: string)
    ensures db.users <= RegisterUser(db, a, dateCreated).db.users
    ensures |RegisterUser(db, a, dateCreated).db.users| <= |db.users| + 1
    ensures RegisterUser(db, a, dateCreated).db.ifscBanks == db.ifscBanks
  {
  }

  /**
   `authenticateUser`, on the first user with that username: none gives
   `UserNotFound`; an inactive one gives `AccountInactive` whatever the
   password; then a wrong password gives `InvalidCredentials`. The database
   is a value here, so nothing can change.
   */
  function AuthenticateUser(db: BankDb, username: string, password: string): (r: LoginResult)
    ensures r == UserNotFound <==> !IsUsernameExists(db.users, username)
    ensures r == AccountInactive <==>
      exists i :: IsFirstNamed(db.users, username, i) && !db.users[i].isActive
    ensures r == InvalidCredentials <==>
      exists i :: IsFirstNamed(db.users, username, i) && db.users[i].isActive && db.users[i].password != password
    ensures r == LoginSuccess <==>
      exists i :: IsFirstNamed(db.users, username, i) && db.users[i].isActive && db.users[i].password == password
  {
    match FindByUsername(db.users, username)
    case None => UserNotFound
    case Some(i) =>
      if !db.users[i].isActive then AccountInactive
      else if db.users[i].password != password then InvalidCredentials
      else LoginSuccess
  }

  /** There is only ever one first user with a given name. */
  lemma FirstNamedUnique(users: seq<User>, username: string, i: int, j: int)
    requires IsFirstNamed(users, username, i) && IsFirstNamed(users, username, j)
    ensures i == j
  {
  }

  /**
   A user who has just registered can log in with the password given, and
   any other password is refused as invalid credentials; `getUser` finds
   exactly the new record.
   */
  lemma RegisteredUserCanLogIn(db: BankDb, a: Applicant, dateCreated: string, other: string)
    requires RegisterUser(db, a, dateCreated).result == Success
    requires other != a.password
    ensures AuthenticateUser(RegisterUser(db, a, dateCreated).db, a.username, a.password) == LoginSuccess
    ensures AuthenticateUser(RegisterUser(db, a, dateCreated).db, a.username, other) == InvalidCredentials
    ensures GetUser(RegisterUser(db, a, dateCreated).db, a.username) ==
      Some(NewUser(a.accountNumber, Upper(a.ifscCode), a.fullName, a.email, a.username, a.password, dateCreated))
  {
    var users := RegisterUser(db, a, dateCreated).db.users;
    var n := |db.users|;
    RegisteredUserIsFirstNamed(db, a, dateCreated);
    assert users[n].isActive && users[n].password == a.password;
    var found := FindByUsername(users, a.username);
    FirstNamedUnique(users, a.username, found.value, n);
  }

  /** The user registration appends is the first one with its username. */
  lemma RegisteredUserIsFirstNamed(db: BankDb, a: Applicant, dateCreated: string)
    requires RegisterUser(db, a, dateCreated).result == Success
    ensures var users := RegisterUser(db, a, dateCreated).db.users;
      && |users| == |db.users| + 1
      && users[|db.users|] == NewUser(a.accountNumber, Upper(a.ifscCode), a.fullName, a.email, a.username, a.password, dateCreated)
      && IsFirstNamed(users, a.username, |db.users|)
  {
    FirstFailureSuccess(db, a, 0);
    assert PassesBefore(db, a, |CheckOrder|);
    assert Passes(db, a, CheckOrder[5]);
    AppendFreshIsFirstNamed(db.users, NewUser(a.accountNumber, Upper(a.ifscCode), a.fullName,
                                              a.email, a.username, a.password, dateCreated));
  }

  /** A user appended under a username nobody holds is the first with that name. */
  lemma AppendFreshIsFirstNamed(users: seq<User>, u: User)
    requires !exists v :: v in users && v.username == u.username
    ensures IsFirstNamed(users + [u], u.username, |users|)
  {
    forall j | 0 <= j < |users|
      ensures (users + [u])[j].username != u.username
    {
      assert (users + [u])[j] == users[j];
      assert users[j] in users;
    }
  }

  /** `getRegistrationResultMessage`. */
  function RegistrationResultMessage(r: RegistrationResult): (m: string)
  {
    match r
    case Success => "Account created successfully!"
    case InvalidAccountNumber => "Invalid account number format. Must be 10-12 digits."
    case InvalidIfscCode => "Invalid IFSC code format. Must be 4 letters + 7 digits."
    case InvalidEmail => "Invalid email format."
    case AccountNumberExists => "Account number already exists."
    case UsernameExists => "Username already exists."
    case EmailExists => "Email already registered."
    case IfscNotFound => "IFSC code not found in our bank network."
    case EmptyFields => "All fields are required."
  }

  /** `getLoginResultMessage`. */
  function LoginResultMessage(r: LoginResult): (m: string)
  {
    match r
    case LoginSuccess => "Login successful!"
    case InvalidCredentials => "Invalid username or password."
    case AccountInactive => "Account is inactive. Please contact support."
    case UserNotFound => "User not found."
  }

  /** Each registration result has its own message, so the message tells the result. */
  lemma RegistrationMessagesDistinct(r1: RegistrationResult, r2: RegistrationResult)
    ensures RegistrationResultMessage(r1) == RegistrationResultMessage(r2) ==> r1 == r2
  {
    // Only the two 24-character messages share a length, and they differ in their first letter.
    MessageLength(r1);
    MessageLength(r2);
  }

  /** The length of each registration message; only two results share one. */
  function MessageLengthOf(r: RegistrationResult): nat
  {
    match r
    case Success => 29
    case InvalidAccountNumber => 52
    case InvalidIfscCode => 55
    case InvalidEmail => 21
    case AccountNumberExists => 30
    case UsernameExists => 24
    case EmailExists => 25
    case IfscNotFound => 40
    case EmptyFields => 24
  }

  lemma MessageLength(r: RegistrationResult)
    ensures |RegistrationResultMessage(r)| == MessageLengthOf(r)
  {
    match r
    case Success =>
    case InvalidAccountNumber =>
    case InvalidIfscCode =>
    case InvalidEmail =>
    case AccountNumberExists =>
    case UsernameExists =>
    case EmailExists =>
    case IfscNotFound =>
    case EmptyFields =>
  }

  /** Each login result has its own message. */
  lemma LoginMessagesDistinct(r1: LoginResult, r2: LoginResult)
    ensures LoginResultMessage(r1) == LoginResultMessage(r2) ==> r1 == r2
  {
  }

  /** The users `loadDatabase` reads: one `fromString` per non-empty line, in order. */
  function ParseUserLines(lines: seq<string>): (users: seq<User>)
    ensures |users| == |NonEmpty(lines)|
    ensures forall i :: 0 <= i < |users| ==> users[i] == FromString(NonEmpty(lines)[i])
  {
    if |lines| == 0 then []
    else if lines[0] == [] then ParseUserLines(lines[1..])
    else [FromString(lines[0])] + ParseUserLines(lines[1..])
  }

  function NonEmpty(lines: seq<string>): seq<string>
  {
    if |lines| == 0 then []
    else if lines[0] == [] then NonEmpty(lines[1..])
    else [lines[0]] + NonEmpty(lines[1..])
  }

  /** The lines `saveDatabase` writes: one `toString` per user. */
  function UserLines(users: seq<User>): (lines: seq<string>)
    ensures |lines| == |users|
    ensures forall i :: 0 <= i < |users| ==> lines[i] == ToString(users[i])
  {
    if |users| == 0 then [] else [ToString(users[0])] + UserLines(users[1..])
  }

  /** The text `saveDatabase` writes: each user's `toString` line, ended by `std::endl`. */
  function SaveDatabase(users: seq<User>): (text: string)
    ensures text == [] <==> users == []
    ensures multiset(text)[LineBreak] >= |users|
  {
    if |users| == 0 then []
    else
      var line, rest := ToString(users[0]), SaveDatabase(users[1..]);
      assert multiset(line + [LineBreak] + rest) == multiset(line) + multiset{LineBreak} + multiset(rest);
      line + [LineBreak] + rest
  }

  /** `loadDatabase`: the file's lines as `std::getline` reads them, each non-empty one read by `fromString`. */
  function LoadDatabase(text: string): (users: seq<User>)
    ensures |users| <= |GetlineTokens(text, LineBreak)|
  {
    var lines := GetlineTokens(text, LineBreak);
    NonEmptyShorter(lines);
    ParseUserLines(lines)
  }

  /**
   What `saveDatabase` writes, `loadDatabase` reads back unchanged, when no
   field of any user holds `|` or a line break.
   */
  lemma SaveLoadUsers(users: seq<User>)
    requires forall i :: 0 <= i < |users| ==> Storable(users[i]) && NoLineBreaks(users[i])
    ensures LoadDatabase(SaveDatabase(users)) == users
  {
    if |users| > 0 {
      var lines := UserLines(users);
      SaveDatabaseJoin(users);
      forall i | 0 <= i < |lines|
        ensures LineBreak !in lines[i]
      {
        ToStringOneLine(users[i]);
      }
      GetlineTerminated(lines, LineBreak);
    }
    ParseUserLinesOfUserLines(users);
  }

  /** A non-empty save is the users' lines joined by line breaks, plus a final one. */
  lemma {:induction false} SaveDatabaseJoin(users: seq<User>)
    requires |users| > 0
    ensures SaveDatabase(users) == Join(UserLines(users), LineBreak) + [LineBreak]
  {
    if |users| > 1 {
      SaveDatabaseJoin(users[1..]);
      assert UserLines(users)[1..] == UserLines(users[1..]);
    }
  }

  /** Each stored line reads back as its user, and none of them is empty. */
  lemma {:induction false} ParseUserLinesOfUserLines(users: seq<User>)
    requires forall i :: 0 <= i < |users| ==> Storable(users[i])
    ensures ParseUserLines(UserLines(users)) == users
  {
    if |users| > 0 {
      var first, rest := users[0], users[1..];
      assert forall i :: 0 <= i < |rest| ==> Storable(rest[i]) by {
        assert forall i :: 0 <= i < |rest| ==> rest[i] == users[i + 1];
      }
      ParseUserLinesOfUserLines(rest);
      assert UserLines(users) == [ToString(first)] + UserLines(rest);
      ParseUserLinesCons(ToString(first), UserLines(rest));
      FromStringToString(first);
      assert users == [first] + rest;
    }
  }

  /** A non-empty first line is read as one user, ahead of the users of the remaining lines. */
  lemma ParseUserLinesCons(line: string, rest: seq<string>)
    requires line != []
    ensures ParseUserLines([line] + rest) == [FromString(line)] + ParseUserLines(rest)
  {
    assert ([line] + rest)[1..] == rest;
  }

  /**
   The database the constructor builds: the seeded IFSC table, the users
   read from the user file's text, then the lines of the IFSC file applied on top.
   */
  function Open(userText: string, ifscLines: seq<string>): (db: BankDb)
    ensures |db.users| <= multiset(userText)[LineBreak] + 1
    ensures forall code :: code in InitialBanks() ==> code in db.ifscBanks
  {
    BankDb(LoadDatabase(userText), LoadIfscLines(InitialBanks(), ifscLines))
  }

  lemma {:induction false} NonEmptyShorter(lines: seq<string>)
    ensures |NonEmpty(lines)| <= |lines|
  {
    if |lines| > 0 {
      NonEmptyShorter(lines[1..]);
    }
  }

}
