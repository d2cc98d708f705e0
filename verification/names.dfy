/**
 * Player names and the validation `handleStartGame` applies to them: a name
 * is accepted when JavaScript's `String.prototype.trim` leaves something.
 */
module Names {

  /**
   * A character `trim` strips: an ECMAScript WhiteSpace (tab, vertical tab,
   * form feed, the byte order mark, and every space separator) or
   * LineTerminator (line feed, carriage return, line and paragraph separator).
   */
  predicate IsWhiteSpace(c: char) {
    || ('\t' <= c && c <= '\r')  // tab, line feed, vertical tab, form feed, carriage return
    || c == ' ' || c == '\U{00A0}' || c == '\U{1680}'
    || ('\U{2000}' <= c && c <= '\U{200A}')
    || c == '\U{2028}' || c == '\U{2029}' || c == '\U{202F}' || c == '\U{205F}'
    || c == '\U{3000}' || c == '\U{FEFF}'
  }

  /** The index of the first character of `s` at or after `i` that is not white space, or `|s|`. */
  function SkipForward(s: string, i: nat): (k: nat)
    requires i <= |s|
    ensures i <= k <= |s|
    ensures forall j :: i <= j < k ==> IsWhiteSpace(s[j])
    ensures k < |s| ==> !IsWhiteSpace(s[k])
    decreases |s| - i
  {
    if i == |s| || !IsWhiteSpace(s[i]) then i else SkipForward(s, i + 1)
  }

  /** The index just past the last character of `s` before `i` that is not white space, or 0. */
  function SkipBackward(s: string, i: nat): (k: nat)
    requires i <= |s|
    ensures k <= i
    ensures forall j :: k <= j < i ==> IsWhiteSpace(s[j])
    ensures k > 0 ==> !IsWhiteSpace(s[k - 1])
  {
    if i == 0 || !IsWhiteSpace(s[i - 1]) then i else SkipBackward(s, i - 1)
  }

  /** `s` with its leading white space removed. */
  function TrimStart(s: string): (r: string)
    ensures |r| <= |s| && r == s[|s| - |r|..]
    ensures forall i :: 0 <= i < |s| - |r| ==> IsWhiteSpace(s[i])
    ensures r == [] || !IsWhiteSpace(r[0])
  {
    s[SkipForward(s, 0)..]
  }

  /** `s` with its trailing white space removed. */
  function TrimEnd(s: string): (r: string)
    ensures |r| <= |s| && r == s[..|r|]
    ensures forall i :: |r| <= i < |s| ==> IsWhiteSpace(s[i])
    ensures r == [] || !IsWhiteSpace(r[|r| - 1])
  {
    s[..SkipBackward(s, |s|)]
  }

  /** `s.trim()`. */
  function Trim(s: string): (r: string)
    ensures |r| <= |s|
    ensures r != [] ==> !IsWhiteSpace(r[0]) && !IsWhiteSpace(r[|r| - 1])
  {
    TrimEnd(TrimStart(s))
  }

  /**
   * `trim` removes a run of white space at each end and nothing else: the
   * result is the infix of `s` that starts at its first and ends at its last
   * character that is not white space.
   */
  lemma TrimIsInfix(s: string)
    ensures var r, lead := Trim(s), |s| - |TrimStart(s)|;
      && lead + |r| <= |s|
      && r == s[lead..lead + |r|]
      && (forall i :: 0 <= i < lead ==> IsWhiteSpace(s[i]))
      && (forall i :: lead + |r| <= i < |s| ==> IsWhiteSpace(s[i]))
      && (r != [] ==> !IsWhiteSpace(r[0]) && !IsWhiteSpace(r[|r| - 1]))
  {
    var t := TrimStart(s);
    var r := TrimEnd(t);
    assert Trim(s) == r;
    SuffixOfInfix(s, |s| - |t|, r);
  }

  /**
   * If `s[lead..]` starts with `r` followed only by white space, then `r` is
   * the infix of `s` at `lead` and everything after it is white space.
   */
  lemma SuffixOfInfix(s: string, lead: nat, r: string)
    requires lead <= |s| && |r| <= |s| - lead && r == s[lead..][..|r|]
    requires forall j :: |r| <= j < |s| - lead ==> IsWhiteSpace(s[lead..][j])
    ensures r == s[lead..lead + |r|]
    ensures forall i :: lead + |r| <= i < |s| ==> IsWhiteSpace(s[i])
  {
    forall i | lead + |r| <= i < |s| ensures IsWhiteSpace(s[i]) {
      assert s[i] == s[lead..][i - lead];
    }
  }

  /** `s.trim()` is empty exactly when every character of `s` is white space. */
  lemma TrimEmptyIff(s: string)
    ensures Trim(s) == [] <==> forall i :: 0 <= i < |s| ==> IsWhiteSpace(s[i])
  {
    TrimIsInfix(s);
  }

  /** `playerX.trim() && playerO.trim()`: both names keep a character after trimming. */
  predicate NamesValid(playerX: string, playerO: string) {
    Trim(playerX) != [] && Trim(playerO) != []
  }

  /** The names are accepted exactly when each has a character that is not white space. */
  lemma NamesValidIff(playerX: string, playerO: string)
    ensures NamesValid(playerX, playerO) <==>
      (exists i :: 0 <= i < |playerX| && !IsWhiteSpace(playerX[i])) &&
      (exists i :: 0 <= i < |playerO| && !IsWhiteSpace(playerO[i]))
  {
    TrimEmptyIff(playerX);
    TrimEmptyIff(playerO);
  }
}
