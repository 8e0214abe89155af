/** The custom-link character class `[a-zA-Z0-9-_]`, which the post API and the edit
    form both test with an anchored regular expression. */
module SlugChars {

  /** A character of the class: an ASCII letter or digit, `-` or `_`. */
  predicate IsSlugChar(c: char) {
    ('a' <= c <= 'z') || ('A' <= c <= 'Z') || ('0' <= c <= '9') || c == '-' || c == '_'
  }

  /** `/^[a-zA-Z0-9-_]*$/.test(s)`: every character is in the class; the empty string
      matches. */
  function MatchesSlugClass(s: string): (ok: bool)
    ensures ok <==> forall i :: 0 <= i < |s| ==> IsSlugChar(s[i])
    decreases |s|
  {
    if s == [] then true
    else
      var rest := MatchesSlugClass(s[1..]);
      assert rest <==> forall i :: 1 <= i < |s| ==> IsSlugChar(s[i]) by {
        forall i | 1 <= i < |s| ensures s[i] == s[1..][i - 1] { }
      }
      IsSlugChar(s[0]) && rest
  }
}
