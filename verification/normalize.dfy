/** The normaliser shape both moderation bots share: lower-case the text,
    replace each character through a substitution table (a table value that is
    the empty string is falsy in JavaScript, so `table[c] || c` keeps the
    character itself), join, and strip everything outside `[a-z]`. */
module Normalize {
  import opened Text
  import opened Seqs

  type Table = map<char, String>

  /** A table whose keys are neither letters nor affected by lower-casing,
      and whose values are made of `a`-`z` only (possibly empty). */
  predicate WellFormedTable(table: Table) {
    forall c :: c in table ==> !IsLowerLetter(c) && !IsUpperLetter(c) && AllLowerLetters(table[c])
  }

  /** `table[c] || c`. */
  function Substitute(table: Table, c: char): String {
    if c in table && table[c] != [] then table[c] else [c]
  }

  /** `.split('').map(c => table[c] || c).join('')`. */
  function SubstituteAll(table: Table, s: String): String
    decreases |s|
  {
    if |s| == 0 then [] else Substitute(table, s[0]) + SubstituteAll(table, s[1..])
  }

  /** `.replace(/[^a-z]/g, '')`. */
  function KeepLetters(s: String): (r: String)
    ensures AllLowerLetters(r)
  {
    Filter(s, IsLowerLetter)
  }

  function NormalizeWith(table: Table, text: String): (r: String)
    ensures AllLowerLetters(r)
  {
    KeepLetters(SubstituteAll(table, Lower(text)))
  }

  lemma {:induction false} SubstituteAllAppend(table: Table, a: String, b: String)
    ensures SubstituteAll(table, a + b) == SubstituteAll(table, a) + SubstituteAll(table, b)
    decreases |a|
  {
    if |a| == 0 {
      assert a + b == b;
    } else {
      SubstituteAllAppend(table, a[1..], b);
      assert (a + b)[1..] == a[1..] + b;
      assert (a + b)[0] == a[0];
    }
  }

  /** Normalisation works character by character: the normal form of a
      concatenation is the concatenation of the normal forms. */
  lemma NormalizeAppend(table: Table, a: String, b: String)
    ensures NormalizeWith(table, a + b) == NormalizeWith(table, a) + NormalizeWith(table, b)
  {
    LowerAppend(a, b);
    SubstituteAllAppend(table, Lower(a), Lower(b));
    FilterAppend(SubstituteAll(table, Lower(a)), SubstituteAll(table, Lower(b)), IsLowerLetter);
  }

  /** The net effect of normalisation on one character: a table key becomes
      its table value (a key mapped to the empty string disappears, because
      the character it falls back to is not a letter), an ASCII letter
      becomes its lower-case form, anything else disappears. */
  lemma NormalizeChar(table: Table, c: char)
    requires WellFormedTable(table)
    ensures NormalizeWith(table, [c]) ==
      if c in table then table[c]
      else if IsLowerLetter(LowerChar(c)) then [LowerChar(c)]
      else []
  {
    var l := LowerChar(c);
    assert Lower([c]) == [l];
    assert SubstituteAll(table, [l]) == Substitute(table, l) + SubstituteAll(table, []);
    if c in table {
      assert l == c;
      if table[c] != [] {
        assert Substitute(table, l) == table[c];
        assert SubstituteAll(table, [l]) == table[c];
        FilterKeepsAll(table[c], IsLowerLetter);
      } else {
        assert Filter([c], IsLowerLetter) == [];
      }
    } else {
      assert l !in table;
      assert Substitute(table, l) == [l];
    }
  }

  lemma {:induction false} SubstituteAllFixesLetters(table: Table, t: String)
    requires WellFormedTable(table)
    requires AllLowerLetters(t)
    ensures SubstituteAll(table, t) == t
    decreases |t|
  {
    if |t| > 0 {
      SubstituteAllFixesLetters(table, t[1..]);
      assert t[0] !in table;
      assert t == [t[0]] + t[1..];
    }
  }

  /** Text that is already lower-case letters only is its own normal form. */
  lemma NormalizeFixesLetters(table: Table, t: String)
    requires WellFormedTable(table)
    requires AllLowerLetters(t)
    ensures NormalizeWith(table, t) == t
  {
    LowerOfLowerLetters(t);
    SubstituteAllFixesLetters(table, t);
    FilterKeepsAll(t, IsLowerLetter);
  }

  /** Normalisation is idempotent. */
  lemma NormalizeIdempotent(table: Table, text: String)
    requires WellFormedTable(table)
    ensures NormalizeWith(table, NormalizeWith(table, text)) == NormalizeWith(table, text)
  {
    NormalizeFixesLetters(table, NormalizeWith(table, text));
  }
}
