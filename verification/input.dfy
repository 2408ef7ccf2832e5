/** The cell edit path of sudoku.js: the `input` listener of an editable
    tile trims what was typed, keeps one character of a longer entry,
    blanks an entry that is not all digits (`isValidInput`), and hands the
    tile's text to `updateBoard`, which stores `Number(text)` in the cell.
    Texts are Dafny strings, whose characters are Unicode scalar values;
    JavaScript counts UTF-16 code units instead, which differs only on
    entries that hold a character outside the digits and are blanked. */
module Input {

  /** A character the pattern `[0-9]` matches. */
  predicate IsDigit(ch: char)
  {
    '0' <= ch <= '9'
  }

  /** `isValidInput`: the whole string matches `^[0-9]*$`; the empty string does. */
  predicate IsValidInput(s: string)
  {
    forall i | 0 <= i < |s| :: IsDigit(s[i])
  }

  /** The white space and line terminators that `String.prototype.trim` and
      `Number` strip (ECMAScript WhiteSpace and LineTerminator). */
  predicate IsWhiteSpace(ch: char)
  {
    var n := ch as int;
    n == 0x09 || n == 0x0A || n == 0x0B || n == 0x0C || n == 0x0D || n == 0x20 || n == 0xA0 ||
    n == 0x1680 || (0x2000 <= n <= 0x200A) || n == 0x2028 || n == 0x2029 || n == 0x202F ||
    n == 0x205F || n == 0x3000 || n == 0xFEFF
  }

  /** The string without its leading white space. */
  function TrimStart(s: string): string
    decreases |s|
  {
    if s != [] && IsWhiteSpace(s[0]) then TrimStart(s[1..]) else s
  }

  /** The string without its trailing white space. */
  function TrimEnd(s: string): string
    decreases |s|
  {
    if s != [] && IsWhiteSpace(s[|s| - 1]) then TrimEnd(s[..|s| - 1]) else s
  }

  /** `String.prototype.trim`. */
  function Trim(s: string): string
  {
    TrimEnd(TrimStart(s))
  }

  /** TrimStart removes a prefix of white space, and only that: what is left
      is a suffix of s that does not start with white space. */
  lemma {:induction false} TrimStartMeaning(s: string)
    decreases |s|
    ensures var r := TrimStart(s);
      |r| <= |s| && r == s[|s| - |r|..] &&
      (forall i :: 0 <= i < |s| - |r| ==> IsWhiteSpace(s[i])) &&
      (r != [] ==> !IsWhiteSpace(r[0]))
  {
    if s != [] && IsWhiteSpace(s[0]) {
      TrimStartMeaning(s[1..]);
    }
  }

  /** TrimEnd removes a suffix of white space, and only that: what is left
      is a prefix of s that does not end with white space. */
  lemma {:induction false} TrimEndMeaning(s: string)
    decreases |s|
    ensures var r := TrimEnd(s);
      |r| <= |s| && r == s[..|r|] &&
      (forall i :: |r| <= i < |s| ==> IsWhiteSpace(s[i])) &&
      (r != [] ==> !IsWhiteSpace(r[|r| - 1]))
  {
    if s != [] && IsWhiteSpace(s[|s| - 1]) {
      TrimEndMeaning(s[..|s| - 1]);
    }
  }

  /** Neither end of a trimmed string is white space. */
  lemma TrimEnds(s: string)
    ensures Trim(s) != [] ==> !IsWhiteSpace(Trim(s)[0]) && !IsWhiteSpace(Trim(s)[|Trim(s)| - 1])
  {
    var t := TrimStart(s);
    TrimStartMeaning(s);
    TrimEndMeaning(t);
    if Trim(s) != [] {
      assert Trim(s)[0] == t[0];
    }
  }

  /** Trimming cuts off exactly the white space at both ends: a core with no
      white space at either end, padded with white space, trims to the core. */
  lemma TrimOfPadded(pre: string, core: string, post: string)
    requires forall i :: 0 <= i < |pre| ==> IsWhiteSpace(pre[i])
    requires forall i :: 0 <= i < |post| ==> IsWhiteSpace(post[i])
    requires core != [] ==> !IsWhiteSpace(core[0]) && !IsWhiteSpace(core[|core| - 1])
    ensures Trim(pre + core + post) == core
  {
    var s := pre + core + post;
    var t := TrimStart(s);
    TrimStartMeaning(s);
    TrimEndMeaning(t);
    if core == [] {
      assert forall i :: 0 <= i < |s| ==> IsWhiteSpace(s[i]);
      assert t == [];
    } else {
      var k := |s| - |t|;
      assert s[|pre|] == core[0];
      assert k == |pre|;
      assert t == core + post;
      var r := TrimEnd(t);
      assert t[|core| - 1] == core[|core| - 1];
      assert |r| == |core|;
      assert r == t[..|core|] == core;
    }
  }

  /** A string with no white space at either end is its own trim. */
  lemma TrimKeeps(s: string)
    requires s != [] ==> !IsWhiteSpace(s[0]) && !IsWhiteSpace(s[|s| - 1])
    ensures Trim(s) == s
  {
    TrimOfPadded([], s, []);
    assert [] + s + [] == s;
  }

  /** Trimming twice is trimming once. */
  lemma TrimIdempotent(s: string)
    ensures Trim(Trim(s)) == Trim(s)
  {
    TrimEnds(s);
    TrimKeeps(Trim(s));
  }

  /** The value of a decimal digit. */
  function DigitValue(ch: char): (d: int)
    requires IsDigit(ch)
    ensures 0 <= d <= 9
  {
    ch as int - '0' as int
  }

  /** The digit character of a value 0..9. */
  function DigitChar(d: int): (ch: char)
    requires 0 <= d <= 9
    ensures IsDigit(ch) && DigitValue(ch) == d
  {
    ('0' as int + d) as char
  }

  /** The value of a string of decimal digits, most significant first; the
      empty string has value 0, and a single digit has its own value. */
  function Decimal(s: string): (n: nat)
    requires IsValidInput(s)
    ensures |s| == 1 ==> n == DigitValue(s[0])
  {
    if s == [] then 0 else 10 * Decimal(s[..|s| - 1]) + DigitValue(s[|s| - 1])
  }

  /** `Number(text)` for a text whose trimmed form is blank or a single
      digit, the only texts the listener passes on: the value of that digit,
      0 for a blank text. */
  function Number(text: string): (n: nat)
    requires IsValidInput(Trim(text)) && |Trim(text)| <= 1
    ensures n <= 9
    ensures Trim(text) == [] ==> n == 0
    ensures Trim(text) != [] ==> n == DigitValue(Trim(text)[0])
  {
    Decimal(Trim(text))
  }

  /** The tile's text after the listener's corrections, computed from the
      text the tile held when the `input` event fired: an entry longer than
      one character (after trimming) is cut to its first character, and an
      entry that is not all digits, judged before the cut, is blanked. An
      entry that needs neither correction is left exactly as typed. */
  function Sanitize(text: string): string
  {
    var entered := Trim(text);
    var shown := if |entered| > 1 then [entered[0]] else text;
    if !IsValidInput(entered) then "" else shown
  }

  /** The listener's two corrections: an entry that is not all digits is
      blanked, and an all-digit entry longer than one character is cut to its
      first character. Either way the tile is left showing at most one digit,
      surrounded by white space only, and that digit is the first character
      of the trimmed entry. */
  lemma SanitizeShows(text: string)
    ensures !IsValidInput(Trim(text)) ==> Sanitize(text) == ""
    ensures IsValidInput(Trim(text)) && |Trim(text)| > 1 ==> Sanitize(text) == [Trim(text)[0]]
    ensures IsValidInput(Trim(text)) && |Trim(text)| <= 1 ==> Sanitize(text) == text
    ensures IsValidInput(Trim(Sanitize(text))) && |Trim(Sanitize(text))| <= 1
    ensures Trim(Sanitize(text)) != [] ==> Trim(text) != [] && Trim(Sanitize(text)) == [Trim(text)[0]]
  {
    var entered := Trim(text);
    if !IsValidInput(entered) {
      TrimKeeps("");
    } else if |entered| > 1 {
      TrimEnds(text);
      TrimKeeps([entered[0]]);
    } else {
      TrimIdempotent(text);
    }
  }

  /** The value `updateBoard` stores for the text a tile held when the input event fired. */
  function EnteredValue(text: string): int
  {
    SanitizeShows(text);
    Number(Sanitize(text))
  }

  /** What an entry puts into the cell: the first character of the trimmed
      entry when the trimmed entry is a non-empty string of digits, and 0
      (an empty cell) for a blank entry or one with any other character. */
  lemma EnteredValueMeaning(text: string)
    ensures 0 <= EnteredValue(text) <= 9
    ensures var entered := Trim(text);
      EnteredValue(text) == if entered != [] && IsValidInput(entered) then DigitValue(entered[0]) else 0
  {
    SanitizeShows(text);
  }

  /** The listener's corrections are stable: the text they leave in the tile
      would be left as it is by another pass. */
  lemma SanitizeIdempotent(text: string)
    ensures Sanitize(Sanitize(text)) == Sanitize(text)
  {
    SanitizeShows(text);
  }

  /** Typing one digit into an empty tile shows that digit and enters its value. */
  lemma TypedDigit(d: int)
    requires 0 <= d <= 9
    ensures Sanitize([DigitChar(d)]) == [DigitChar(d)]
    ensures EnteredValue([DigitChar(d)]) == d
  {
    var s := [DigitChar(d)];
    TrimKeeps(s);
  }
}
