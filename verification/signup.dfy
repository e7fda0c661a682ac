/**
 The `POST /signup` handler of the Express server: the six form fields are
 passed, in a fixed order, as the arguments of the registration executable,
 and what the executable reports becomes an HTTP status and a JSON body.
 */
module Signup {

  import opened JsText

  /** The six fields the handler takes from the request body. */
  datatype SignupForm = SignupForm(
    accountNumber: string,
    ifscCode: string,
    fullname: string,
    email: string,
    username: string,
    password: string)

  /** The HTTP status with the `success` and `message` members of the JSON body. */
  datatype Response = Response(status: int, success: bool, message: string)

  const SuccessToken: string := "SUCCESS"
  const ErrorTag: string := "ERROR: "
  const CreatedMessage: string := "Account created successfully!"
  const ServerErrorMessage: string := "Server error occurred."

  /** The argument vector of the executable: account number, IFSC code, full name, email, username, password. */
  function ExecArgs(f: SignupForm): (args: seq<string>)
    ensures |args| == 6
    ensures args[0] == f.accountNumber && args[1] == f.ifscCode && args[2] == f.fullname
    ensures args[3] == f.email && args[4] == f.username && args[5] == f.password
  {
    [f.accountNumber, f.ifscCode, f.fullname, f.email, f.username, f.password]
  }

  /** The form the executable's six arguments were built from. */
  function FormOfArgs(args: seq<string>): (f: SignupForm)
    requires |args| == 6
  {
    SignupForm(args[0], args[1], args[2], args[3], args[4], args[5])
  }

  /** Every field reaches the executable, each at its own position, so the form can be read back. */
  lemma ExecArgsRoundTrip(f: SignupForm)
    ensures FormOfArgs(ExecArgs(f)) == f
  {
  }

  /**
   The `execFile` callback. A failed run gives 500 with a fixed message,
   whatever was printed. Otherwise the output is trimmed: if it starts with
   `SUCCESS` the reply is 200 and success; else it is 400, and the message is
   the trimmed output with the first `ERROR: ` in it, wherever it occurs,
   removed.
   */
  function SignupResponse(execFailed: bool, stdout: string): (r: Response)
    ensures r.success <==> r.status == 200
    ensures execFailed ==> r == Response(500, false, ServerErrorMessage)
    ensures !execFailed ==> (r.success <==> StartsWith(Trim(stdout), SuccessToken))
    ensures r.success ==> r.message == CreatedMessage
    ensures !execFailed && !r.success ==> r.status == 400
  {
    if execFailed then Response(500, false, ServerErrorMessage)
    else
      var result := Trim(stdout);
      if StartsWith(result, SuccessToken) then Response(200, true, CreatedMessage)
      else Response(400, false, RemoveFirst(result, ErrorTag))
  }

  /** Whitespace around the executable's output never changes the reply. */
  lemma SignupIgnoresPadding(execFailed: bool, pre: string, out: string, post: string)
    requires AllWhitespace(pre) && AllWhitespace(post)
    ensures SignupResponse(execFailed, pre + out + post) == SignupResponse(execFailed, out)
  {
    TrimIgnoresPadding(pre, out, post);
  }

  /** Whitespace after the output never changes the reply. */
  lemma SignupIgnoresTrailingPadding(execFailed: bool, out: string, post: string)
    requires AllWhitespace(post)
    ensures SignupResponse(execFailed, out + post) == SignupResponse(execFailed, out)
  {
    assert AllWhitespace([]);
    assert [] + out + post == out + post;
    SignupIgnoresPadding(execFailed, [], out, post);
  }

  /** An `ERROR: ` line whose reason ends in a visible character is already trimmed and is not a confirmation. */
  lemma TrimmedErrorLine(reason: string)
    requires |reason| > 0 && !IsWhitespace(reason[|reason| - 1])
    ensures Trim(ErrorTag + reason) == ErrorTag + reason
    ensures !StartsWith(ErrorTag + reason, SuccessToken)
  {
    var t := ErrorTag + reason;
    assert t[0] == 'E' && t[|t| - 1] == reason[|reason| - 1];
    TrimOfTrimmed(t);
    assert t[0] != SuccessToken[0];
  }

  /** `ERROR: <reason>` (with any whitespace after it) is answered with 400 and exactly the reason. */
  lemma SignupReportsReason(reason: string, post: string)
    requires |reason| > 0 && !IsWhitespace(reason[|reason| - 1])
    requires AllWhitespace(post)
    ensures SignupResponse(false, ErrorTag + reason + post) == Response(400, false, reason)
  {
    var t := ErrorTag + reason;
    TrimmedErrorLine(reason);
    RemoveFirstPrefix(ErrorTag, reason);
    SignupIgnoresTrailingPadding(false, t, post);
  }

  /**
   `ERROR: ` is removed at its first occurrence even when that is not at the
   start: the message is the text around it, joined.
   */
  lemma SignupRemovesFirstTagAnywhere(stdout: string, pre: string, rest: string)
    requires Trim(stdout) == pre + ErrorTag + rest
    requires forall j :: 0 <= j < |pre| ==> !OccursAt(pre + ErrorTag + rest, ErrorTag, j)
    requires !StartsWith(pre + ErrorTag + rest, SuccessToken)
    ensures SignupResponse(false, stdout) == Response(400, false, pre + rest)
  {
    var t := pre + ErrorTag + rest;
    assert t[|pre|..|pre| + |ErrorTag|] == ErrorTag;
    assert FirstOccurrence(t, ErrorTag, |pre|);
    assert t[..|pre|] == pre && t[|pre| + |ErrorTag|..] == rest;
  }

  /** Output that neither starts with `SUCCESS` nor holds `ERROR: ` comes back, trimmed, as the message. */
  lemma SignupRelaysOtherOutput(stdout: string)
    requires forall k :: 0 <= k <= |Trim(stdout)| ==> !OccursAt(Trim(stdout), ErrorTag, k)
    requires !StartsWith(Trim(stdout), SuccessToken)
    ensures SignupResponse(false, stdout) == Response(400, false, Trim(stdout))
  {
  }

  /** The executable's confirmation, followed by a newline, is answered with 200 and success. */
  lemma SignupConfirms()
    ensures SignupResponse(false, "SUCCESS\n") == Response(200, true, CreatedMessage)
  {
    var ok := "SUCCESS";
    TrimOfTrimmed(ok);
    assert AllWhitespace("\n");
    SignupIgnoresTrailingPadding(false, ok, "\n");
    assert ok + "\n" == "SUCCESS\n";
    assert StartsWith(ok, SuccessToken);
  }

  /** A tag in the middle of the output is cut out of it: `Signup ERROR: failed` reads `Signup failed`. */
  lemma SignupCutsInteriorTag()
    ensures SignupResponse(false, "Signup ERROR: failed") == Response(400, false, "Signup failed")
  {
    var pre := "Signup ";
    var rest := "failed";
    var t := pre + ErrorTag + rest;
    assert t == "Signup ERROR: failed";
    assert t[0] == 'S' && t[|t| - 1] == 'd';
    TrimOfTrimmed(t);
    assert forall j :: 0 <= j < |pre| ==> t[j] == pre[j] && pre[j] != 'E';
    forall j | 0 <= j < |pre|
      ensures !OccursAt(t, ErrorTag, j)
    {
      assert t[j..j + |ErrorTag|][0] == t[j];
    }
    assert t[1] != SuccessToken[1];
    assert pre + rest == "Signup failed";
    SignupRemovesFirstTagAnywhere(t, pre, rest);
  }

}
