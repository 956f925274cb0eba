/** The string primitives of the JavaScript runtime that the three bots lean on:
    character classes used by their regular expressions, ASCII lower-casing,
    `String.prototype.trim`, `split` on a one-character separator, and
    `includes`. Strings are sequences of Unicode scalar values. */
module Text {

  type String = seq<char>

  predicate IsLowerLetter(c: char) { 'a' <= c <= 'z' }

  predicate IsUpperLetter(c: char) { 'A' <= c <= 'Z' }

  predicate IsDigit(c: char) { '0' <= c <= '9' }

  /** Membership in the regular-expression class `[a-zA-Z0-9]`. */
  predicate IsAlnum(c: char) { IsLowerLetter(c) || IsUpperLetter(c) || IsDigit(c) }

  /** Membership in `\w`, the class that decides where `\b` holds. */
  predicate IsWordChar(c: char) { IsAlnum(c) || c == '_' }

  /** The characters `trim` removes and `\s` matches: the WhiteSpace and
      LineTerminator code points of ECMAScript. */
  predicate IsJsSpace(c: char) {
    var n := c as int;
    || n == 0x09 || n == 0x0A || n == 0x0B || n == 0x0C || n == 0x0D || n == 0x20
    || n == 0xA0 || n == 0x1680 || (0x2000 <= n <= 0x200A)
    || n == 0x2028 || n == 0x2029 || n == 0x202F || n == 0x205F || n == 0x3000 || n == 0xFEFF
  }

  predicate AllLowerLetters(s: String) {
    forall k :: 0 <= k < |s| ==> IsLowerLetter(s[k])
  }

  /** `toLowerCase` on one character, for the ASCII range. */
  function LowerChar(c: char): (r: char)
    ensures !IsUpperLetter(r)
    ensures IsUpperLetter(c) ==> IsLowerLetter(r)
    ensures !IsUpperLetter(c) ==> r == c
    ensures IsJsSpace(r) <==> IsJsSpace(c)
  {
    if IsUpperLetter(c) then (c as int + 32) as char else c
  }

  /** Case-insensitive equality of two characters, as a regular expression
      with the `i` flag compares them (ASCII range). */
  predicate SameIgnoringCase(x: char, c: char) { LowerChar(x) == LowerChar(c) }

  function Lower(s: String): (r: String)
    ensures |r| == |s|
    ensures forall k :: 0 <= k < |s| ==> r[k] == LowerChar(s[k])
  {
    seq(|s|, k requires 0 <= k < |s| => LowerChar(s[k]))
  }

  lemma LowerAppend(a: String, b: String)
    ensures Lower(a + b) == Lower(a) + Lower(b)
  {
  }

  /** Lower-casing is idempotent and leaves no ASCII upper-case letter. */
  lemma LowerIdempotent(s: String)
    ensures Lower(Lower(s)) == Lower(s)
    ensures forall k :: 0 <= k < |s| ==> !IsUpperLetter(Lower(s)[k])
  {
  }

  lemma LowerOfLowerLetters(s: String)
    requires AllLowerLetters(s)
    ensures Lower(s) == s
  {
  }

  /** `part` occurs in `text` starting at index `i`. */
  predicate OccursAt(text: String, part: String, i: int) {
    0 <= i && i + |part| <= |text| && text[i..i + |part|] == part
  }

  /** `text.includes(part)`. */
  predicate Contains(text: String, part: String) {
    exists i | 0 <= i <= |text| - |part| :: OccursAt(text, part, i)
  }

  /** The empty string is contained in every text. */
  lemma ContainsEmpty(text: String)
    ensures Contains(text, [])
  {
    assert OccursAt(text, [], 0);
  }

  /** The number of white-space characters `s` starts with. */
  function LeadingSpaces(s: String): (n: nat)
    ensures n <= |s|
    ensures forall k :: 0 <= k < n ==> IsJsSpace(s[k])
    ensures n < |s| ==> !IsJsSpace(s[n])
    decreases |s|
  {
    if |s| > 0 && IsJsSpace(s[0]) then 1 + LeadingSpaces(s[1..]) else 0
  }

  /** The number of white-space characters `s` ends with. */
  function TrailingSpaces(s: String): (n: nat)
    ensures n <= |s|
    ensures forall k :: |s| - n <= k < |s| ==> IsJsSpace(s[k])
    ensures n < |s| ==> !IsJsSpace(s[|s| - 1 - n])
    decreases |s|
  {
    if |s| > 0 && IsJsSpace(s[|s| - 1]) then 1 + TrailingSpaces(s[..|s| - 1]) else 0
  }

  predicate IsTrimmed(s: String) {
    |s| == 0 || (!IsJsSpace(s[0]) && !IsJsSpace(s[|s| - 1]))
  }

  /** `s.trim()`: white space only trims to the empty string; otherwise the
      result is what lies between the leading and the trailing white space,
      and it starts and ends with a non-space character. */
  function Trim(s: String): (r: String)
    ensures IsTrimmed(r)
    ensures r == [] <==> forall k :: 0 <= k < |s| ==> IsJsSpace(s[k])
    ensures r != [] ==>
      (LeadingSpaces(s) + |r| + TrailingSpaces(s) == |s| && r == s[LeadingSpaces(s)..LeadingSpaces(s) + |r|])
    ensures IsTrimmed(s) ==> r == s
  {
    var i := LeadingSpaces(s);
    if i == |s| then []
    else
      var j := |s| - TrailingSpaces(s);
      assert i < j;
      s[i..j]
  }

  /** Lower-casing keeps a trimmed string trimmed. */
  lemma LowerKeepsTrimmed(s: String)
    requires IsTrimmed(s)
    ensures IsTrimmed(Lower(s))
  {
  }

  /** `s.trim().toLowerCase()`: trimmed and free of upper-case letters. */
  function TrimLower(s: String): (r: String)
    ensures IsTrimmed(r) && Lower(r) == r
    ensures |r| <= |s|
  {
    LowerKeepsTrimmed(Trim(s));
    LowerIdempotent(Trim(s));
    Lower(Trim(s))
  }

  /** `s.split(d)` for a one-character separator: always at least one
      piece. */
  function Split(s: String, d: char): (r: seq<String>)
    ensures |r| >= 1
    decreases |s|
  {
    if |s| == 0 then [[]]
    else
      var rest := Split(s[1..], d);
      if s[0] == d then [[]] + rest
      else [[s[0]] + rest[0]] + rest[1..]
  }

  /** `parts.join(d)`. */
  function Join(parts: seq<String>, d: char): String
    decreases |parts|
  {
    if |parts| == 0 then []
    else if |parts| == 1 then parts[0]
    else parts[0] + [d] + Join(parts[1..], d)
  }

  /** Joining the pieces back with the separator restores the string. */
  lemma {:induction false} JoinSplit(s: String, d: char)
    ensures Join(Split(s, d), d) == s
    decreases |s|
  {
    if |s| > 0 {
      var rest := Split(s[1..], d);
      JoinSplit(s[1..], d);
      if s[0] == d {
        assert Split(s, d) == [[]] + rest;
        assert ([[]] + rest)[1..] == rest;
      } else {
        var r := Split(s, d);
        assert r == [[s[0]] + rest[0]] + rest[1..];
        if |rest| == 1 {
          assert Join(r, d) == [s[0]] + rest[0];
        } else {
          assert r[1..] == rest[1..];
          assert Join(r, d) == [s[0]] + rest[0] + [d] + Join(rest[1..], d);
        }
        assert s == [s[0]] + s[1..];
      }
    }
  }

  /** One step of `Split`: the first character either ends the first piece
      or joins it. */
  lemma SplitCons(c: char, t: String, d: char)
    ensures Split([c] + t, d) ==
      if c == d then [[]] + Split(t, d) else [[c] + Split(t, d)[0]] + Split(t, d)[1..]
  {
    assert ([c] + t)[0] == c && ([c] + t)[1..] == t;
  }

  lemma SplitConcatStep(c: char, a: String, b: String, d: char)
    requires c != d
    requires Split(a + [d] + b, d) == Split(a, d) + Split(b, d)
    ensures Split([c] + (a + [d] + b), d) == Split([c] + a, d) + Split(b, d)
  {
    SplitCons(c, a + [d] + b, d);
    SplitCons(c, a, d);
    var rest := Split(a, d);
    var lhs := Split([c] + (a + [d] + b), d);
    var rhs := Split([c] + a, d) + Split(b, d);
    assert |lhs| == |rhs|;
    forall k | 0 <= k < |lhs|
      ensures lhs[k] == rhs[k]
    {
      if 0 < k < |rest| {
        assert lhs[k] == rest[k];
      }
    }
  }

  lemma SplitConcatSepStep(a: String, b: String, d: char)
    requires Split(a + [d] + b, d) == Split(a, d) + Split(b, d)
    ensures Split([d] + (a + [d] + b), d) == Split([d] + a, d) + Split(b, d)
  {
    SplitCons(d, a + [d] + b, d);
    SplitCons(d, a, d);
    var lhs := Split([d] + (a + [d] + b), d);
    var rhs := Split([d] + a, d) + Split(b, d);
    assert |lhs| == |rhs|;
    forall k | 0 <= k < |lhs|
      ensures lhs[k] == rhs[k]
    {
    }
  }

  /** Splitting at the first separator splits the piece list there. */
  lemma {:induction false} SplitConcat(a: String, b: String, d: char)
    ensures Split(a + [d] + b, d) == Split(a, d) + Split(b, d)
    decreases |a|
  {
    if |a| == 0 {
      assert a + [d] + b == [d] + b;
      SplitCons(d, b, d);
    } else {
      var c, a' := a[0], a[1..];
      assert a == [c] + a';
      assert a + [d] + b == [c] + (a' + [d] + b);
      SplitConcat(a', b, d);
      if c == d {
        SplitConcatSepStep(a', b, d);
      } else {
        SplitConcatStep(c, a', b, d);
      }
    }
  }

  lemma {:induction false} SplitNoSeparator(s: String, d: char)
    requires d !in s
    ensures Split(s, d) == [s]
    decreases |s|
  {
    if |s| > 0 {
      assert d !in s[1..];
      SplitNoSeparator(s[1..], d);
      assert s == [s[0]] + s[1..];
    }
  }

  /** The other round trip: pieces free of the separator come back from
      splitting their join. */
  lemma {:induction false} SplitJoin(parts: seq<String>, d: char)
    requires |parts| >= 1
    requires forall k :: 0 <= k < |parts| ==> d !in parts[k]
    ensures Split(Join(parts, d), d) == parts
    decreases |parts|
  {
    if |parts| == 1 {
      SplitNoSeparator(parts[0], d);
    } else {
      SplitJoin(parts[1..], d);
      SplitNoSeparator(parts[0], d);
      SplitConcat(parts[0], Join(parts[1..], d), d);
      assert parts == [parts[0]] + parts[1..];
    }
  }
}
