/**
  `sanitize_filename`: the character filter applied to a client-supplied file
  name before it is used, meant to prevent path traversal.

  Rust's `char::is_alphanumeric` follows Unicode's Alphabetic and Numeric
  properties; the model takes it as the parameter `isAlphanumeric`, so every
  result here holds for whatever character classification is plugged in.
*/
module Sanitize {

  /** The characters the filter keeps: alphanumerics and `.`, `_`, `-`. */
  predicate Allowed(isAlphanumeric: char -> bool, c: char) {
    isAlphanumeric(c) || c == '.' || c == '_' || c == '-'
  }

  /** What Unicode says of the two path separators: neither is alphanumeric. */
  predicate SeparatorsNotAlphanumeric(isAlphanumeric: char -> bool) {
    !isAlphanumeric('/') && !isAlphanumeric('\\')
  }

  predicate AllAllowed(isAlphanumeric: char -> bool, s: string) {
    forall i :: 0 <= i < |s| ==> Allowed(isAlphanumeric, s[i])
  }

  /** `filename.chars().filter(..).collect()`. */
  function SanitizeFilename(isAlphanumeric: char -> bool, name: string): (r: string)
    ensures |r| <= |name|
    ensures AllAllowed(isAlphanumeric, r)
  {
    if name == [] then []
    else if Allowed(isAlphanumeric, name[0]) then [name[0]] + SanitizeFilename(isAlphanumeric, name[1..])
    else SanitizeFilename(isAlphanumeric, name[1..])
  }

  /** `a` occurs in `b` in order, possibly with gaps. */
  predicate IsSubsequence(a: string, b: string)
    decreases |b|
  {
    a == [] || (b != [] && ((a[0] == b[0] && IsSubsequence(a[1..], b[1..])) || IsSubsequence(a, b[1..])))
  }

  /** The output keeps the order of the characters it keeps. */
  lemma {:induction false} SanitizeIsSubsequence(isAlphanumeric: char -> bool, name: string)
    ensures IsSubsequence(SanitizeFilename(isAlphanumeric, name), name)
  {
    if name != [] {
      SanitizeIsSubsequence(isAlphanumeric, name[1..]);
      var rest := SanitizeFilename(isAlphanumeric, name[1..]);
      assert [name[0]] + name[1..] == name;
      if Allowed(isAlphanumeric, name[0]) {
        assert ([name[0]] + rest)[1..] == rest;
      }
    }
  }

  /** The filter works character by character: it distributes over concatenation. */
  lemma {:induction false} SanitizeAppend(isAlphanumeric: char -> bool, a: string, b: string)
    ensures SanitizeFilename(isAlphanumeric, a + b)
         == SanitizeFilename(isAlphanumeric, a) + SanitizeFilename(isAlphanumeric, b)
  {
    if a != [] {
      assert (a + b)[0] == a[0];
      assert (a + b)[1..] == a[1..] + b;
      SanitizeAppend(isAlphanumeric, a[1..], b);
    } else {
      assert a + b == b;
    }
  }

  /** A name made only of allowed characters comes back unchanged. */
  lemma {:induction false} SanitizeKeepsAllowed(isAlphanumeric: char -> bool, name: string)
    requires AllAllowed(isAlphanumeric, name)
    ensures SanitizeFilename(isAlphanumeric, name) == name
  {
    if name != [] {
      assert AllAllowed(isAlphanumeric, name[1..]) by {
        forall i | 0 <= i < |name[1..]| ensures Allowed(isAlphanumeric, name[1..][i]) {
          assert name[1..][i] == name[i + 1];
        }
      }
      SanitizeKeepsAllowed(isAlphanumeric, name[1..]);
      assert [name[0]] + name[1..] == name;
    }
  }

  /** Sanitizing twice is sanitizing once. */
  lemma SanitizeIdempotent(isAlphanumeric: char -> bool, name: string)
    ensures SanitizeFilename(isAlphanumeric, SanitizeFilename(isAlphanumeric, name))
         == SanitizeFilename(isAlphanumeric, name)
  {
    SanitizeKeepsAllowed(isAlphanumeric, SanitizeFilename(isAlphanumeric, name));
  }

  /** The path-traversal guarantee: no separator survives the filter. */
  lemma SanitizeRemovesSeparators(isAlphanumeric: char -> bool, name: string)
    requires SeparatorsNotAlphanumeric(isAlphanumeric)
    ensures '/' !in SanitizeFilename(isAlphanumeric, name)
    ensures '\\' !in SanitizeFilename(isAlphanumeric, name)
  {
    var r := SanitizeFilename(isAlphanumeric, name);
    assert forall i :: 0 <= i < |r| ==> Allowed(isAlphanumeric, r[i]);
  }
}
