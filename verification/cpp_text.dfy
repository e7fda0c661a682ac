/**
 The character and string primitives the C++ registry relies on: the ASCII
 character classes of its regular expressions, `::toupper` in the "C" locale,
 `std::string::find` of one character and `std::getline` with a delimiter.
 */
module CppText {

  import opened Optional

  predicate IsDigit(c: char) { '0' <= c <= '9' }

  predicate IsUpper(c: char) { 'A' <= c <= 'Z' }

  predicate IsLower(c: char) { 'a' <= c <= 'z' }

  predicate IsLetter(c: char) { IsUpper(c) || IsLower(c) }

  /** `::toupper` in the "C" locale: only the 26 ASCII lower-case letters change. */
  function UpperChar(c: char): (u: char)
    ensures IsLower(c) ==> IsUpper(u) && u as int == c as int - 32
    ensures !IsLower(c) ==> u == c
    ensures IsLetter(c) <==> IsUpper(u) || IsLower(u)
    ensures IsDigit(u) <==> IsDigit(c)
  {
    if IsLower(c) then (c as int - 32) as char else c
  }

  /** `std::transform(s.begin(), s.end(), s.begin(), ::toupper)`. */
  function Upper(s: string): (r: string)
    ensures |r| == |s|
    ensures forall i :: 0 <= i < |s| ==> r[i] == UpperChar(s[i])
  {
    seq(|s|, i requires 0 <= i < |s| => UpperChar(s[i]))
  }

  /** Upper-casing twice is upper-casing once. */
  lemma UpperIdempotent(s: string)
    ensures Upper(Upper(s)) == Upper(s)
  {
  }

  /** `s.find(c)`: the first position of `c`, or nothing (`npos`). */
  function FirstIndexOf(s: string, c: char): (r: Option<nat>)
    ensures r.None? <==> c !in s
    ensures r.Some? ==> r.value < |s| && s[r.value] == c && c !in s[..r.value]
  {
    if |s| == 0 then None
    else if s[0] == c then Some(0)
    else match FirstIndexOf(s[1..], c)
      case None => None
      case Some(i) =>
        assert s[..i + 1] == [s[0]] + s[1..][..i];
        Some(i + 1)
  }

  /** The last position of `c` in `s`, or nothing. */
  function LastIndexOf(s: string, c: char): (r: Option<nat>)
    ensures r.None? <==> c !in s
    ensures r.Some? ==> r.value < |s| && s[r.value] == c && c !in s[r.value + 1..]
  {
    if |s| == 0 then None
    else if s[|s| - 1] == c then Some(|s| - 1)
    else
      var r := LastIndexOf(s[..|s| - 1], c);
      assert s == s[..|s| - 1] + [s[|s| - 1]];
      match r
      case None => None
      case Some(i) =>
        assert s[i + 1..] == s[..|s| - 1][i + 1..] + [s[|s| - 1]];
        Some(i)
  }

  /** The pieces of `s` between the occurrences of `d`; k occurrences give k + 1 pieces. */
  function SplitOn(s: string, d: char): (pieces: seq<string>)
    ensures |pieces| == multiset(s)[d] + 1
    ensures forall i :: 0 <= i < |pieces| ==> d !in pieces[i]
    decreases |s|
  {
    match FirstIndexOf(s, d)
    case None =>
      assert multiset(s)[d] == 0;
      [s]
    case Some(i) =>
      assert s == s[..i] + [d] + s[i + 1..];
      assert multiset(s) == multiset(s[..i]) + multiset{d} + multiset(s[i + 1..]);
      assert multiset(s[..i])[d] == 0;
      [s[..i]] + SplitOn(s[i + 1..], d)
  }

  /** The pieces joined back together with `d` between consecutive pieces. */
  function Join(pieces: seq<string>, d: char): (s: string)
  {
    if |pieces| == 0 then ""
    else if |pieces| == 1 then pieces[0]
    else pieces[0] + [d] + Join(pieces[1..], d)
  }

  /** Joining the pieces of a split gives the string back. */
  lemma {:induction false} JoinSplit(s: string, d: char)
    ensures Join(SplitOn(s, d), d) == s
    decreases |s|
  {
    match FirstIndexOf(s, d)
    case None =>
    case Some(i) =>
      JoinSplit(s[i + 1..], d);
      var rest := SplitOn(s[i + 1..], d);
      assert SplitOn(s, d) == [s[..i]] + rest;
      assert ([s[..i]] + rest)[1..] == rest;
      assert s == s[..i] + [d] + s[i + 1..];
  }

  /** Splitting a join of delimiter-free pieces gives the pieces back. */
  lemma {:induction false} SplitJoin(pieces: seq<string>, d: char)
    requires |pieces| >= 1
    requires forall i :: 0 <= i < |pieces| ==> d !in pieces[i]
    ensures SplitOn(Join(pieces, d), d) == pieces
  {
    if |pieces| == 1 {
      assert FirstIndexOf(pieces[0], d).None?;
    } else {
      var head := pieces[0];
      var tail := Join(pieces[1..], d);
      var s := head + [d] + tail;
      assert Join(pieces, d) == s;
      FirstIndexAfterFreePrefix(head, d, tail);
      assert s[..|head|] == head;
      assert s[|head| + 1..] == tail;
      SplitJoin(pieces[1..], d);
    }
  }

  /** In `head + [d] + tail` with `d` not in `head`, the first `d` is the one after `head`. */
  lemma FirstIndexAfterFreePrefix(head: string, d: char, tail: string)
    requires d !in head
    ensures FirstIndexOf(head + [d] + tail, d) == Some(|head|)
  {
    var s := head + [d] + tail;
    assert s[|head|] == d;
    assert forall k :: 0 <= k < |head| ==> s[k] == head[k];
  }

  /** The last character of a join is the last character of its last piece, when that is not empty. */
  lemma {:induction false} JoinLast(pieces: seq<string>, d: char)
    requires |pieces| >= 1 && |pieces[|pieces| - 1]| > 0
    ensures |Join(pieces, d)| > 0
    ensures Join(pieces, d)[|Join(pieces, d)| - 1] == pieces[|pieces| - 1][|pieces[|pieces| - 1]| - 1]
  {
    if |pieces| > 1 {
      JoinLast(pieces[1..], d);
    }
  }

  /** Appending a piece appends the delimiter and the piece. */
  lemma {:induction false} JoinSnoc(pieces: seq<string>, last: string, d: char)
    requires |pieces| >= 1
    ensures Join(pieces + [last], d) == Join(pieces, d) + [d] + last
  {
    if |pieces| > 1 {
      JoinSnoc(pieces[1..], last, d);
      assert (pieces + [last])[1..] == pieces[1..] + [last];
    }
  }

  /** A character other than the delimiter that no piece holds is not in their join. */
  lemma {:induction false} JoinAvoids(pieces: seq<string>, d: char, c: char)
    requires c != d
    requires forall i :: 0 <= i < |pieces| ==> c !in pieces[i]
    ensures c !in Join(pieces, d)
  {
    if |pieces| > 1 {
      JoinAvoids(pieces[1..], d, c);
      assert Join(pieces, d) == pieces[0] + [d] + Join(pieces[1..], d);
    }
  }

  /**
   The tokens `while (std::getline(ss, token, d))` collects from `s`: the
   pieces between delimiters, except that an empty input yields no token
   and a delimiter at the very end does not open a final empty token.
   */
  function GetlineTokens(s: string, d: char): (tokens: seq<string>)
    ensures s == [] ==> tokens == []
    ensures s != [] ==> |tokens| == multiset(s)[d] + (if s[|s| - 1] == d then 0 else 1)
    ensures forall i :: 0 <= i < |tokens| ==> d !in tokens[i]
  {
    if s == [] then []
    else
      var pieces := SplitOn(s, d);
      if s[|s| - 1] == d then pieces[..|pieces| - 1] else pieces
  }

  /** Delimiter-free pieces whose last piece is not empty are exactly the tokens of their join. */
  lemma GetlineJoin(pieces: seq<string>, d: char)
    requires |pieces| >= 1 && |pieces[|pieces| - 1]| > 0
    requires forall i :: 0 <= i < |pieces| ==> d !in pieces[i]
    ensures GetlineTokens(Join(pieces, d), d) == pieces
  {
    SplitJoin(pieces, d);
    JoinLast(pieces, d);
    var last := pieces[|pieces| - 1];
    assert last[|last| - 1] in last;
  }

  /**
   Delimiter-free pieces, each followed by the delimiter (as `std::endl` ends
   every line), come back as exactly those pieces: the final delimiter does
   not open an empty token.
   */
  lemma GetlineTerminated(pieces: seq<string>, d: char)
    requires |pieces| >= 1
    requires forall i :: 0 <= i < |pieces| ==> d !in pieces[i]
    ensures GetlineTokens(Join(pieces, d) + [d], d) == pieces
  {
    var all := pieces + [""];
    JoinSnoc(pieces, "", d);
    assert Join(all, d) == Join(pieces, d) + [d];
    assert forall i :: 0 <= i < |all| ==> d !in all[i];
    SplitJoin(all, d);
    assert all[..|all| - 1] == pieces;
  }

}
