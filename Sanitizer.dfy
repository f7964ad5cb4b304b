/**
 Sanitization of a snapshot file name: every punctuation or space character
 is replaced with `_`. The model does not fix which characters count as
 punctuation or space: it takes that class as a parameter, so everything
 proved here holds for every such class. Runs of such characters are not
 collapsed: each one becomes its own `_`.
 */
module FileNameSanitizer {

  /** A character class: true for the characters that must not stay in a file name. */
  type CharClass = char -> bool

  /**
   Replaces every character of the class with `sep` and keeps every other
   character, position by position.
   */
  function ReplaceClass(s: string, invalid: CharClass, sep: char): (r: string)
    ensures |r| == |s|
    ensures forall i :: 0 <= i < |s| ==> (invalid(s[i]) ==> r[i] == sep) && (!invalid(s[i]) ==> r[i] == s[i])
  {
    if s == [] then [] else [if invalid(s[0]) then sep else s[0]] + ReplaceClass(s[1..], invalid, sep)
  }

  /** A string is sanitized when its only characters of the class are underscores. */
  predicate IsSanitized(s: string, invalid: CharClass) {
    forall i :: 0 <= i < |s| ==> s[i] == '_' || !invalid(s[i])
  }

  /**
   Replaces every character of the class with `_` and keeps every other
   character, position by position.
   */
  function Sanitize(s: string, invalid: CharClass): (r: string)
    ensures |r| == |s|
    ensures forall i :: 0 <= i < |s| ==> (invalid(s[i]) ==> r[i] == '_') && (!invalid(s[i]) ==> r[i] == s[i])
    ensures IsSanitized(r, invalid)
  {
    ReplaceClass(s, invalid, '_')
  }

  /** Sanitizing works character by character, so it distributes over concatenation. */
  lemma SanitizeConcat(a: string, b: string, invalid: CharClass)
    ensures Sanitize(a + b, invalid) == Sanitize(a, invalid) + Sanitize(b, invalid)
  {
    var l, r := Sanitize(a + b, invalid), Sanitize(a, invalid) + Sanitize(b, invalid);
    assert |l| == |r|;
    forall i | 0 <= i < |l| ensures l[i] == r[i] {
      if i < |a| {
        assert (a + b)[i] == a[i];
      } else {
        assert (a + b)[i] == b[i - |a|];
      }
    }
  }

  /** A string is left unchanged by sanitization exactly when it is already sanitized. */
  lemma SanitizeFixedPoints(s: string, invalid: CharClass)
    ensures Sanitize(s, invalid) == s <==> IsSanitized(s, invalid)
  {
    if IsSanitized(s, invalid) {
      var r := Sanitize(s, invalid);
      forall i | 0 <= i < |s| ensures r[i] == s[i] {
      }
    }
  }

  /** Sanitizing twice is sanitizing once. */
  lemma SanitizeIdempotent(s: string, invalid: CharClass)
    ensures Sanitize(Sanitize(s, invalid), invalid) == Sanitize(s, invalid)
  {
    SanitizeFixedPoints(Sanitize(s, invalid), invalid);
  }

  /** A worked case: the space in "My Test" becomes `_` and the letters stay. */
  lemma SanitizeMyTest(invalid: CharClass)
    requires invalid(' ')
    requires !invalid('M') && !invalid('y') && !invalid('T') && !invalid('e') && !invalid('s') && !invalid('t')
    ensures Sanitize("My Test", invalid) == "My_Test"
  {
    var name := "My Test";
    var r := Sanitize(name, invalid);
    assert name[0] == 'M' && name[1] == 'y' && name[2] == ' ' && name[3] == 'T';
    assert name[4] == 'e' && name[5] == 's' && name[6] == 't';
    assert r == [r[0], r[1], r[2], r[3], r[4], r[5], r[6]];
  }

  /** The number of characters of the class in `s`. */
  function CountClass(s: string, invalid: CharClass): nat {
    if s == [] then 0 else (if invalid(s[0]) then 1 else 0) + CountClass(s[1..], invalid)
  }

  /**
   The pieces of `s` between characters of the class, in order, with an
   empty piece between two adjacent separators and at either end that starts
   or stops with one. There is always one more piece than there are
   separators, and no piece holds a separator.
   */
  function Components(s: string, invalid: CharClass): (parts: seq<string>)
    ensures |parts| == 1 + CountClass(s, invalid)
    ensures forall k, j :: 0 <= k < |parts| && 0 <= j < |parts[k]| ==> !invalid(parts[k][j])
  {
    if s == [] then [[]]
    else
      var rest := Components(s[1..], invalid);
      if invalid(s[0]) then [[]] + rest
      else [[s[0]] + rest[0]] + rest[1..]
  }

  /** The pieces glued back together with `sep` between neighbours. */
  function Join(parts: seq<string>, sep: string): string
    requires |parts| >= 1
  {
    if |parts| == 1 then parts[0] else parts[0] + sep + Join(parts[1..], sep)
  }

  lemma {:induction false} JoinConsFirst(c: char, parts: seq<string>, sep: string)
    requires |parts| >= 1
    ensures Join([[c] + parts[0]] + parts[1..], sep) == [c] + Join(parts, sep)
  {
    var glued := [[c] + parts[0]] + parts[1..];
    assert glued[1..] == parts[1..];
  }

  /**
   Splitting the name at every character of the class and joining the pieces
   with any `sep` puts `sep` exactly where the class characters were. Together
   with the pointwise contract of `ReplaceClass`, this fixes the pieces
   whatever the separator.
   */
  lemma {:induction false} StripAndJoinReplaces(s: string, invalid: CharClass, sep: char)
    ensures Join(Components(s, invalid), [sep]) == ReplaceClass(s, invalid, sep)
  {
    if s != [] {
      var rest := Components(s[1..], invalid);
      StripAndJoinReplaces(s[1..], invalid, sep);
      if invalid(s[0]) {
        assert ([[]] + rest)[1..] == rest;
      } else {
        JoinConsFirst(s[0], rest, [sep]);
      }
    }
  }

  /**
   "Strips punctuation and spaces and replaces them with `_`": splitting the
   name at every character of the class and joining the pieces with `_` is
   the same as replacing each such character with `_`.
   */
  lemma StripAndJoinIsSanitize(s: string, invalid: CharClass)
    ensures Join(Components(s, invalid), "_") == Sanitize(s, invalid)
  {
    StripAndJoinReplaces(s, invalid, '_');
  }
}
