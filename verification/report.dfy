/**
 What the interactive registration menu reports after a successful
 registration: the name of the bank the customer's IFSC code belongs to.
 */
module RegistrationReport {

  import opened Optional
  import opened CppText
  import opened Validation
  import opened IfscTable
  import opened Registry

  /**
   The bank line as the menu prints it: the bank is looked up with the IFSC
   code exactly as typed, although registration stored its upper-case form.
   */
  function ReportedBankAsWritten(db: BankDb, a: Applicant, dateCreated: string): (bank: Option<string>)
    ensures bank.Some? <==> RegisterUser(db, a, dateCreated).result == Success
  {
    var out := RegisterUser(db, a, dateCreated);
    if out.result == Success then Some(GetBankName(out.db.ifscBanks, a.ifscCode)) else None
  }

  /** The bank line looked up with the code registration checked and stored. */
  function ReportedBank(db: BankDb, a: Applicant, dateCreated: string): (bank: Option<string>)
    ensures bank.Some? <==> RegisterUser(db, a, dateCreated).result == Success
  {
    var out := RegisterUser(db, a, dateCreated);
    if out.result == Success then Some(GetBankName(out.db.ifscBanks, Upper(a.ifscCode))) else None
  }

  /** A fresh database and an applicant who types the IFSC code in lower case. */
  const LowerCaseApplicant: Applicant :=
    Applicant("1234567890", "bodd0000001", "Asha Rao", "asha@bank.in", "asha", "secret")

  /** The lower-case applicant's fields are in the formats registration demands. */
  lemma LowerCaseApplicantWellFormed()
    ensures !AnyFieldEmpty(LowerCaseApplicant)
    ensures ValidAccountNumber(LowerCaseApplicant.accountNumber)
    ensures EmailMatches(LowerCaseApplicant.email)
  {
    assert EmailSplitAt(LowerCaseApplicant.email, 4, 9);
  }

  /** Upper-cased, the lower-case applicant's code is a seeded code. */
  lemma LowerCaseCodeKnown()
    ensures Upper(LowerCaseApplicant.ifscCode) == "BODD0000001"
    ensures ValidIfscCode("BODD0000001")
    ensures "BODD0000001" in InitialBanks()
  {
    var up := Upper(LowerCaseApplicant.ifscCode);
    assert |up| == 11;
    assert forall i :: 0 <= i < 11 ==> up[i] == "BODD0000001"[i];
  }

  /** The lower-case applicant passes every check against a fresh database. */
  lemma LowerCaseApplicantRegisters(dateCreated: string)
    ensures RegisterUser(BankDb([], InitialBanks()), LowerCaseApplicant, dateCreated).result == Success
  {
    var db := BankDb([], InitialBanks());
    var a := LowerCaseApplicant;
    LowerCaseApplicantWellFormed();
    LowerCaseCodeKnown();
    assert Passes(db, a, EmptyFields) && Passes(db, a, InvalidAccountNumber);
    assert Passes(db, a, InvalidIfscCode) && Passes(db, a, InvalidEmail);
    assert Passes(db, a, AccountNumberExists) && Passes(db, a, UsernameExists);
    assert Passes(db, a, EmailExists) && Passes(db, a, IfscNotFound);
    FirstFailureUnrolled(db, a);
  }

  /** A code that upper-casing changes is not in IFSC format, so it is not a key of a table of such codes. */
  lemma ChangedByUpperNotInTable(banks: Banks, code: string)
    requires forall k :: k in banks ==> ValidIfscCode(k)
    requires Upper(code) != code
    ensures GetBankName(banks, code) == UnknownBank
  {
    UpperKeepsValidIfsc(code);
  }

  /**
   When the typed code has a lower-case letter and the table holds only
   well-formed codes, every successful registration is reported by the menu
   as written with `Unknown Bank`.
   */
  lemma AsWrittenMissesLowerCaseCodes(db: BankDb, a: Applicant, dateCreated: string)
    requires forall k :: k in db.ifscBanks ==> ValidIfscCode(k)
    requires Upper(a.ifscCode) != a.ifscCode
    requires RegisterUser(db, a, dateCreated).result == Success
    ensures ReportedBankAsWritten(db, a, dateCreated) == Some(UnknownBank)
  {
    RegisterKeepsExistingUsers(db, a, dateCreated);
    ChangedByUpperNotInTable(db.ifscBanks, a.ifscCode);
  }

  /**
   With the code typed in lower case, registration succeeds (it upper-cases
   the code and finds it in the table), yet the menu as written reports
   `Unknown Bank`, because the typed code is not a key of the table.
   */
  lemma AsWrittenReportsUnknownBank(dateCreated: string)
    ensures RegisterUser(BankDb([], InitialBanks()), LowerCaseApplicant, dateCreated).result == Success
    ensures ReportedBankAsWritten(BankDb([], InitialBanks()), LowerCaseApplicant, dateCreated) == Some(UnknownBank)
  {
    LowerCaseApplicantRegisters(dateCreated);
    InitialCodesWellFormed();
    LowerCaseCodeKnown();
    AsWrittenMissesLowerCaseCodes(BankDb([], InitialBanks()), LowerCaseApplicant, dateCreated);
  }

  /**
   Looking the bank up with the upper-cased code names, after every
   successful registration, the table's bank for the code the new user was
   stored with, never `Unknown Bank` for a code that is absent.
   */
  lemma ReportedBankIsStoredUsersBank(db: BankDb, a: Applicant, dateCreated: string)
    requires RegisterUser(db, a, dateCreated).result == Success
    ensures var users := RegisterUser(db, a, dateCreated).db.users;
      && users[|users| - 1].ifscCode in db.ifscBanks
      && ReportedBank(db, a, dateCreated) == Some(db.ifscBanks[users[|users| - 1].ifscCode])
  {
  }

}
