/**
 The IFSC table of the registry: a map from branch code to bank name, seeded
 with eight codes and extended by `code|bank` lines read from a file.
 */
module IfscTable {

  import opened Optional
  import opened CppText
  import opened Validation

  type Banks = map<string, string>

  const UnknownBank: string := "Unknown Bank"

  const InitialCodes: seq<string> :=
    ["BODD0000001", "BODD0000002", "BODD0000003", "BODD0000004",
     "BODD0000005", "HDFC0000001", "ICIC0000001", "SBIN0000001"]

  /** The eight codes every database starts with (`initializeIFSCCodes`). */
  function InitialBanks(): (banks: Banks)
    ensures forall code :: code in banks <==> code in InitialCodes
  {
    map[
      "BODD0000001" := "Bank of Diddy - Main Branch",
      "BODD0000002" := "Bank of Diddy - North Branch",
      "BODD0000003" := "Bank of Diddy - South Branch",
      "BODD0000004" := "Bank of Diddy - East Branch",
      "BODD0000005" := "Bank of Diddy - West Branch",
      "HDFC0000001" := "HDFC Bank - Sample Branch",
      "ICIC0000001" := "ICICI Bank - Sample Branch",
      "SBIN0000001" := "State Bank of India - Sample Branch"]
  }

  /** Every seeded code is itself in the format registration demands. */
  lemma InitialCodesWellFormed()
    ensures forall code :: code in InitialBanks() ==> ValidIfscCode(code)
  {
    forall i | 0 <= i < |InitialCodes|
      ensures ValidIfscCode(InitialCodes[i])
    {
      var c := InitialCodes[i];
      assert |c| == 11;
      assert forall k :: 0 <= k < 4 ==> IsUpper(c[k]);
      assert forall k :: 4 <= k < 11 ==> IsDigit(c[k]);
    }
  }

  /** `isIFSCValid`: the code is a key of the table (case-sensitively). */
  predicate IsIfscValid(banks: Banks, code: string)
  {
    code in banks
  }

  /** `getBankName`: the bank of a known code, the fixed text `Unknown Bank` otherwise. */
  function GetBankName(banks: Banks, code: string): (name: string)
    ensures IsIfscValid(banks, code) ==> name == banks[code]
    ensures !IsIfscValid(banks, code) ==> name == UnknownBank
  {
    if code in banks then banks[code] else UnknownBank
  }

  /**
   One line of the IFSC file split at its FIRST `|`: the code before it and
   the bank name after it (which may hold further `|`); no `|`, no entry.
   */
  function ParseIfscLine(line: string): (entry: Option<(string, string)>)
    ensures entry.None? <==> '|' !in line
    ensures entry.Some? ==> line == entry.value.0 + "|" + entry.value.1 && '|' !in entry.value.0
  {
    match FirstIndexOf(line, '|')
    case None => None
    case Some(i) =>
      assert line == line[..i] + "|" + line[i + 1..];
      Some((line[..i], line[i + 1..]))
  }

  /** The line `saveIFSCCodes` writes for an entry parses back to that entry. */
  lemma ParseIfscLineRoundTrip(code: string, bank: string)
    requires '|' !in code
    ensures ParseIfscLine(code + "|" + bank) == Some((code, bank))
  {
    var line := code + "|" + bank;
    assert forall k :: 0 <= k < |code| ==> line[k] == code[k];
    assert line[|code|] == '|';
    assert FirstIndexOf(line, '|') == Some(|code|);
    assert line[..|code|] == code;
    assert line[|code| + 1..] == bank;
  }

  /** The bank name the last parsable line with code `code` gives, if any. */
  function LastBankFor(lines: seq<string>, code: string): Option<string>
  {
    if |lines| == 0 then None
    else
      var entry := ParseIfscLine(lines[|lines| - 1]);
      if entry.Some? && entry.value.0 == code then Some(entry.value.1)
      else LastBankFor(lines[..|lines| - 1], code)
  }

  /** Record one line in the table: a parsable line sets (or overwrites) its code's bank. */
  function LoadIfscLine(banks: Banks, line: string): Banks
  {
    match ParseIfscLine(line)
    case None => banks
    case Some((code, bank)) => banks[code := bank]
  }

  /**
   `loadIFSCCodes` over the lines of the file, first to last: a code named by
   some line gets the bank of the last such line; every other code keeps
   whatever the table held before, and no other code appears.
   */
  function LoadIfscLines(banks: Banks, lines: seq<string>): (r: Banks)
    ensures forall code :: LastBankFor(lines, code).Some? ==>
      code in r && r[code] == LastBankFor(lines, code).value
    ensures forall code :: LastBankFor(lines, code).None? ==>
      (code in r <==> code in banks) && (code in banks ==> r[code] == banks[code])
  {
    if |lines| == 0 then banks
    else LoadIfscLine(LoadIfscLines(banks, lines[..|lines| - 1]), lines[|lines| - 1])
  }

  /** After loading, the last line written for a code decides its bank name. */
  lemma BankNameAfterLoad(banks: Banks, lines: seq<string>, code: string, bank: string)
    requires '|' !in code
    ensures GetBankName(LoadIfscLines(banks, lines + [code + "|" + bank]), code) == bank
  {
    ParseIfscLineRoundTrip(code, bank);
    var all := lines + [code + "|" + bank];
    assert all[..|all| - 1] == lines;
    assert LastBankFor(all, code) == Some(bank);
  }

  /** A line without `|` leaves the table as it was. */
  lemma LoadLineWithoutSeparator(banks: Banks, lines: seq<string>, line: string)
    requires '|' !in line
    ensures LoadIfscLines(banks, lines + [line]) == LoadIfscLines(banks, lines)
  {
    var all := lines + [line];
    assert all[..|all| - 1] == lines;
  }

}
