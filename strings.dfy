/**
 * The PHP string built-ins the vault relies on, on byte strings: a PHP string is
 * modelled as a Dafny `string` whose characters stand for its bytes, so `strlen`
 * is `|s|`.
 */
module Strings {

  /** PHP truthiness of a string: exactly "" and "0" are falsy, so any string of two or more bytes is truthy. */
  predicate Truthy(s: string): (r: bool)
    ensures r ==> |s| > 0
    ensures |s| > 1 ==> r
  {
    s != "" && s != "0"
  }

  /** The characters `trim` strips by default: space, tab, LF, CR, NUL and vertical tab. */
  predicate IsTrimSpace(c: char) {
    c == ' ' || c == '\t' || c == '\n' || c == '\r' || c == '\0' || c as int == 11
  }

  /** `ltrim`: drops the leading run of trim characters. */
  function TrimLeft(s: string): string {
    if s != [] && IsTrimSpace(s[0]) then TrimLeft(s[1..]) else s
  }

  /** `rtrim`: drops the trailing run of trim characters. */
  function TrimRight(s: string): string {
    if s != [] && IsTrimSpace(s[|s| - 1]) then TrimRight(s[..|s| - 1]) else s
  }

  /** `trim`: both ends; what is left is a piece of the input that starts and ends with no trim character. */
  function Trim(s: string): (r: string)
    ensures |r| <= |TrimLeft(s)| <= |s|
    ensures r == s[|s| - |TrimLeft(s)|..][..|r|]
    ensures r == [] || (!IsTrimSpace(r[0]) && !IsTrimSpace(r[|r| - 1]))
    ensures forall i :: 0 <= i < |s| - |TrimLeft(s)| ==> IsTrimSpace(s[i])
    ensures forall i :: |s| - |TrimLeft(s)| + |r| <= i < |s| ==> IsTrimSpace(s[i])
  {
    var l := TrimLeft(s);
    TrimLeftSpec(s);
    TrimRightSpec(l);
    var r := TrimRight(l);
    assert r != [] ==> r[0] == l[0];
    assert forall i :: |s| - |l| + |r| <= i < |s| ==> s[i] == l[i - (|s| - |l|)];
    r
  }

  /** `ltrim` keeps a suffix, removes only trim characters, and stops at the first other one. */
  lemma {:induction false} TrimLeftSpec(s: string)
    ensures |TrimLeft(s)| <= |s| && TrimLeft(s) == s[|s| - |TrimLeft(s)|..]
    ensures TrimLeft(s) == [] || !IsTrimSpace(TrimLeft(s)[0])
    ensures forall i :: 0 <= i < |s| - |TrimLeft(s)| ==> IsTrimSpace(s[i])
  {
    if s != [] && IsTrimSpace(s[0]) {
      TrimLeftSpec(s[1..]);
      var r := TrimLeft(s[1..]);
      assert s[1..][|s| - 1 - |r|..] == s[|s| - |r|..];
      forall i | 0 <= i < |s| - |r| ensures IsTrimSpace(s[i]) {
        if i > 0 { assert s[i] == s[1..][i - 1]; }
      }
    }
  }

  /** `rtrim` keeps a prefix, removes only trim characters, and stops at the last other one. */
  lemma {:induction false} TrimRightSpec(s: string)
    ensures |TrimRight(s)| <= |s| && TrimRight(s) == s[..|TrimRight(s)|]
    ensures TrimRight(s) == [] || !IsTrimSpace(TrimRight(s)[|TrimRight(s)| - 1])
    ensures forall i :: |TrimRight(s)| <= i < |s| ==> IsTrimSpace(s[i])
  {
    if s != [] && IsTrimSpace(s[|s| - 1]) {
      TrimRightSpec(s[..|s| - 1]);
      var r := TrimRight(s[..|s| - 1]);
      assert s[..|s| - 1][..|r|] == s[..|r|];
      forall i | |r| <= i < |s| ensures IsTrimSpace(s[i]) {
        if i < |s| - 1 { assert s[i] == s[..|s| - 1][i]; }
      }
    }
  }

  /** Trimming twice is trimming once. */
  lemma TrimIdempotent(s: string)
    ensures Trim(Trim(s)) == Trim(s)
  {
    var t := Trim(s);
    assert TrimLeft(t) == t;
    assert TrimRight(t) == t;
  }

  /** One byte through PHP 8's locale-independent `strtolower`: only A-Z change. */
  function LowerChar(c: char): char {
    if 'A' <= c <= 'Z' then (c as int + 32) as char else c
  }

  /** `strtolower`. */
  function ToLower(s: string): (r: string)
    ensures |r| == |s|
    ensures forall i :: 0 <= i < |s| ==> r[i] == LowerChar(s[i])
  {
    if s == [] then [] else [LowerChar(s[0])] + ToLower(s[1..])
  }

  /** No upper-case ASCII letter. */
  predicate IsLower(s: string) {
    forall i :: 0 <= i < |s| ==> !('A' <= s[i] <= 'Z')
  }

  /** Lower-casing is idempotent and leaves no upper-case ASCII letter behind. */
  lemma ToLowerIdempotent(s: string)
    ensures ToLower(ToLower(s)) == ToLower(s)
    ensures IsLower(ToLower(s))
  {
  }

  /** The character class `[a-zA-Z0-9_]`. */
  predicate IsWordChar(c: char) {
    ('a' <= c <= 'z') || ('A' <= c <= 'Z') || ('0' <= c <= '9') || c == '_'
  }

  predicate AllWordChars(s: string) {
    forall i :: 0 <= i < |s| ==> IsWordChar(s[i])
  }

  /**
   * `preg_match('/^[a-zA-Z0-9_]+$/', s)`. Without the D modifier, PCRE's `$` also
   * matches just before a final newline, so one trailing "\n" is accepted.
   */
  predicate MatchesUsernamePattern(s: string): (r: bool)
    ensures s != [] && AllWordChars(s) ==> r
    ensures r ==> s != [] && IsWordChar(s[0])
    ensures r && s[|s| - 1] != '\n' ==> AllWordChars(s)
  {
    assert |s| > 1 ==> s[..|s| - 1][0] == s[0];
    (|s| > 0 && AllWordChars(s))
    || (|s| > 1 && s[|s| - 1] == '\n' && AllWordChars(s[..|s| - 1]))
  }

  /**
   * On a trimmed string the trailing-newline case of the pattern cannot arise: the
   * pattern accepts exactly the non-empty strings of word characters.
   */
  lemma UsernamePatternOnTrimmed(s: string)
    ensures MatchesUsernamePattern(Trim(s)) <==> Trim(s) != [] && AllWordChars(Trim(s))
  {
  }

  /** Byte-wise lexicographic order (a binary collation), used for `ORDER BY category`. */
  predicate LexLess(a: string, b: string)
    decreases |a|
  {
    if a == [] then b != []
    else if b == [] then false
    else if a[0] != b[0] then a[0] < b[0]
    else LexLess(a[1..], b[1..])
  }

  lemma {:induction false} LexIrreflexive(a: string)
    ensures !LexLess(a, a)
    decreases |a|
  {
    if a != [] {
      LexIrreflexive(a[1..]);
    }
  }

  lemma {:induction false} LexTotal(a: string, b: string)
    ensures a == b || LexLess(a, b) || LexLess(b, a)
    decreases |a|
  {
    if a != [] && b != [] && a[0] == b[0] {
      LexTotal(a[1..], b[1..]);
      if a[1..] == b[1..] {
        assert a == [a[0]] + a[1..] && b == [b[0]] + b[1..];
      }
    }
  }

  lemma {:induction false} LexAsymmetric(a: string, b: string)
    requires LexLess(a, b)
    ensures !LexLess(b, a)
    decreases |a|
  {
    if a != [] && b != [] && a[0] == b[0] {
      LexAsymmetric(a[1..], b[1..]);
    }
  }

  lemma {:induction false} LexTransitive(a: string, b: string, c: string)
    requires LexLess(a, b) && LexLess(b, c)
    ensures LexLess(a, c)
    decreases |a|
  {
    if a != [] && b != [] && c != [] && a[0] == b[0] && b[0] == c[0] {
      LexTransitive(a[1..], b[1..], c[1..]);
    }
  }

  /** Strictly increasing, hence free of duplicates, like `SELECT DISTINCT … ORDER BY`. */
  predicate StrictlySorted(s: seq<string>) {
    forall i, j :: 0 <= i < j < |s| ==> LexLess(s[i], s[j])
  }

  /** Inserts `c` into a strictly sorted list unless it is already there. */
  function InsertSorted(c: string, s: seq<string>): (r: seq<string>)
    requires StrictlySorted(s)
    ensures StrictlySorted(r)
    ensures forall x :: x in r <==> x in s || x == c
    decreases |s|
  {
    if s == [] then [c]
    else if c == s[0] then s
    else if LexLess(c, s[0]) then
      assert forall j :: 0 < j < |s| ==> LexLess(c, s[j]) by {
        forall j | 0 < j < |s| ensures LexLess(c, s[j]) {
          LexTransitive(c, s[0], s[j]);
        }
      }
      [c] + s
    else
      LexTotal(c, s[0]);
      var rest := InsertSorted(c, s[1..]);
      assert forall x :: x in rest ==> LexLess(s[0], x);
      [s[0]] + rest
  }
}
