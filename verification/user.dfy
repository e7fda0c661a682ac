/**
 One registered bank customer and its one-line, `|`-separated storage form.
 The balance is a `double` in the C++ code; here it is carried as the decimal
 text that `std::to_string` writes and `std::stod` reads, without arithmetic.
 */
module UserRecord {

  import opened CppText

  const Separator: char := '|'

  /** What `std::to_string(0.0)` writes: the balance of every new user. */
  const ZeroBalance: string := "0.000000"

  datatype User = User(
    accountNumber: string,
    ifscCode: string,
    fullName: string,
    email: string,
    username: string,
    password: string,
    dateCreated: string,
    isActive: bool,
    balance: string)

  /** The default-constructed user: active, zero balance, every text field empty. */
  const DefaultUser: User := User("", "", "", "", "", "", "", true, ZeroBalance)

  /**
   The six-argument constructor: active, zero balance, and the creation time
   (read from the wall clock in the C++ code) passed in as text.
   */
  function NewUser(accountNumber: string, ifscCode: string, fullName: string, email: string,
                   username: string, password: string, dateCreated: string): (u: User)
    ensures u.isActive && u.balance == ZeroBalance
    ensures u.accountNumber == accountNumber && u.ifscCode == ifscCode && u.fullName == fullName
    ensures u.email == email && u.username == username && u.password == password
    ensures u.dateCreated == dateCreated
  {
    User(accountNumber, ifscCode, fullName, email, username, password, dateCreated, true, ZeroBalance)
  }

  /** The nine storage tokens, in storage order. */
  function Fields(u: User): seq<string>
  {
    [u.accountNumber, u.ifscCode, u.fullName, u.email, u.username, u.password,
     u.dateCreated, if u.isActive then "1" else "0", u.balance]
  }

  /** None of the seven text fields before the activity flag contains the separator. */
  predicate TextFieldsFree(u: User)
  {
    && Separator !in u.accountNumber && Separator !in u.ifscCode && Separator !in u.fullName
    && Separator !in u.email && Separator !in u.username && Separator !in u.password
    && Separator !in u.dateCreated
  }

  /** No field contains the separator and the balance text is not empty, so every field survives a storage round trip. */
  predicate Storable(u: User)
  {
    TextFieldsFree(u) && Separator !in u.balance && u.balance != []
  }

  /** The line break that ends each stored line. */
  const LineBreak: char := '\n'

  /** No field holds a line break, so the user's stored line stays one line of the file. */
  predicate NoLineBreaks(u: User)
  {
    && LineBreak !in u.accountNumber && LineBreak !in u.ifscCode && LineBreak !in u.fullName
    && LineBreak !in u.email && LineBreak !in u.username && LineBreak !in u.password
    && LineBreak !in u.dateCreated && LineBreak !in u.balance
  }

  /** The stored line of a user without line breaks contains none. */
  lemma ToStringOneLine(u: User)
    requires NoLineBreaks(u)
    ensures LineBreak !in ToString(u)
  {
    var fs := Fields(u);
    assert forall i :: 0 <= i < |fs| ==> LineBreak !in fs[i];
    JoinAvoids(fs, Separator, LineBreak);
  }

  /** `User::toString`: the nine fields joined by `|`, activity written as `1` or `0`. */
  function ToString(u: User): (line: string)
    ensures multiset(line)[Separator] >= 8
    ensures line != []
  {
    var fs := Fields(u);
    JoinCountsSeparators(fs, Separator);
    Join(fs, Separator)
  }

  /**
   `User::fromString`: the `|` tokens of the line, as `std::getline` produces them;
   with at least nine, the first nine fill the fields (activity is on exactly
   when the eighth token is `1`), otherwise the default user is returned.
   */
  function FromString(data: string): (u: User)
  {
    var tokens := GetlineTokens(data, Separator);
    if |tokens| >= 9 then
      User(tokens[0], tokens[1], tokens[2], tokens[3], tokens[4], tokens[5], tokens[6],
           tokens[7] == "1", tokens[8])
    else DefaultUser
  }

  /** A join of n pieces holds at least n - 1 delimiters. */
  lemma {:induction false} JoinCountsSeparators(pieces: seq<string>, d: char)
    ensures |pieces| >= 1 ==> multiset(Join(pieces, d))[d] >= |pieces| - 1
  {
    if |pieces| > 1 {
      JoinCountsSeparators(pieces[1..], d);
      var s := Join(pieces, d);
      assert s == pieces[0] + [d] + Join(pieces[1..], d);
      assert multiset(s) == multiset(pieces[0]) + multiset{d} + multiset(Join(pieces[1..], d));
    }
  }

  /** Reading back what `ToString` wrote recovers every field of a storable user. */
  lemma FromStringToString(u: User)
    requires Storable(u)
    ensures FromString(ToString(u)) == u
  {
    var fs := Fields(u);
    assert forall i :: 0 <= i < |fs| ==> Separator !in fs[i];
    GetlineJoin(fs, Separator);
  }

  /**
   A line with fewer than eight separators, or with eight whose last ends the
   line, has fewer than nine tokens and yields the default user: every text
   field empty, active, balance zero.
   */
  lemma FromStringShortLine(data: string)
    requires multiset(data)[Separator] < 8 || (multiset(data)[Separator] == 8 && data[|data| - 1] == Separator)
    ensures FromString(data) == DefaultUser
    ensures var u := FromString(data);
      && u.accountNumber == [] && u.ifscCode == [] && u.fullName == [] && u.email == []
      && u.username == [] && u.password == [] && u.dateCreated == []
      && u.isActive && u.balance == ZeroBalance
  {
    assert |GetlineTokens(data, Separator)| < 9;
  }

}
