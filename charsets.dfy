/** The character classes of the generator and the entropy estimator, and the
    two string operations both rely on: removing characters from an alphabet,
    and asking whether a password holds any character of an alphabet. */
module Charsets {

  /** The ASCII characters from `lo` to `hi`, in code-point order */
  function CharRange(lo: char, hi: char): (r: string)
    requires lo <= hi && hi as int < 128
    ensures |r| == hi as int - lo as int + 1
    ensures forall i :: 0 <= i < |r| ==> r[i] as int == lo as int + i
  {
    seq(hi as int - lo as int + 1, i requires 0 <= i <= hi as int - lo as int => (lo as int + i) as char)
  }

  /** A character is in a range exactly when it lies between its ends. */
  lemma CharRangeMembership(lo: char, hi: char, ch: char)
    requires lo <= hi && hi as int < 128
    ensures ch in CharRange(lo, hi) <==> lo <= ch <= hi
  {
    var r := CharRange(lo, hi);
    if lo <= ch <= hi {
      assert r[ch as int - lo as int] == ch;
    }
  }

  /** Python's string.ascii_uppercase */
  const Uppercase: string := CharRange('A', 'Z')
  /** Python's string.ascii_lowercase */
  const Lowercase: string := CharRange('a', 'z')
  /** Python's string.digits */
  const Digits: string := CharRange('0', '9')
  /** Python's string.punctuation: the 32 ASCII punctuation characters, which
      fill four runs of the ASCII table */
  const Punctuation: string :=
    CharRange('!', '/') + CharRange(':', '@') + CharRange('[', '`') + CharRange('{', '~')
  /** The glyphs that the no_similar option removes */
  const Similar: string := "Il1O0o"

  /** The constants spell out the strings of Python's string module. */
  lemma UppercaseAsWritten()
    ensures Uppercase == "ABCDEFGHIJKLMNOPQRSTUVWXYZ"
  {
  }

  lemma LowercaseAsWritten()
    ensures Lowercase == "abcdefghijklmnopqrstuvwxyz"
  {
  }

  lemma DigitsAsWritten()
    ensures Digits == "0123456789"
  {
  }

  lemma PunctuationAsWritten()
    ensures Punctuation == "!\"#$%&'()*+,-./:;<=>?@[\\]^_`{|}~"
  {
  }

  /** Each alphabet as a range (or, for punctuation, four ranges) of code points */
  lemma UppercaseRange(ch: char)
    ensures ch in Uppercase <==> 'A' <= ch <= 'Z'
  {
    CharRangeMembership('A', 'Z', ch);
  }

  lemma LowercaseRange(ch: char)
    ensures ch in Lowercase <==> 'a' <= ch <= 'z'
  {
    CharRangeMembership('a', 'z', ch);
  }

  lemma DigitsRange(ch: char)
    ensures ch in Digits <==> '0' <= ch <= '9'
  {
    CharRangeMembership('0', '9', ch);
  }

  lemma PunctuationRange(ch: char)
    ensures ch in Punctuation <==>
      '!' <= ch <= '/' || ':' <= ch <= '@' || '[' <= ch <= '`' || '{' <= ch <= '~'
  {
    CharRangeMembership('!', '/', ch);
    CharRangeMembership(':', '@', ch);
    CharRangeMembership('[', '`', ch);
    CharRangeMembership('{', '~', ch);
  }

  lemma SimilarRange(ch: char)
    ensures ch in Similar ==> 'A' <= ch <= 'Z' || 'a' <= ch <= 'z' || '0' <= ch <= '9'
  {
  }

  /** Punctuation holds none of the similar-looking glyphs */
  lemma PunctuationNotSimilar(ch: char)
    ensures ch in Punctuation ==> ch !in Similar
  {
    PunctuationRange(ch);
    SimilarRange(ch);
  }

  /** The four character categories a password may be asked to contain */
  datatype Category = Upper | Lower | Digit | Symbol

  /** The fixed order in which the generator repairs missing categories */
  const RepairOrder: seq<Category> := [Upper, Lower, Digit, Symbol]

  /** Position of a category in RepairOrder */
  function Rank(c: Category): nat
  {
    match c
    case Upper => 0
    case Lower => 1
    case Digit => 2
    case Symbol => 3
  }

  /** The unfiltered alphabet of a category */
  function Base(c: Category): string
  {
    match c
    case Upper => Uppercase
    case Lower => Lowercase
    case Digit => Digits
    case Symbol => Punctuation
  }

  /** The set of characters that occur in a string */
  function CharsOf(s: string): set<char>
  {
    set ch | ch in s
  }

  /** `s` with every character of `drop` removed, the others kept in order:
      the comprehension filter of the no_similar option, and, with a single
      character, `str.replace(ch, '')` of the exclusion loop. */
  function Filter(s: string, drop: set<char>): (r: string)
    ensures |r| <= |s|
  {
    if s == [] then []
    else (if s[0] in drop then [] else [s[0]]) + Filter(s[1..], drop)
  }

  /** A character is kept exactly when it occurs in `s` and is not dropped. */
  lemma {:induction false} FilterMembership(s: string, drop: set<char>, ch: char)
    ensures ch in Filter(s, drop) <==> ch in s && ch !in drop
  {
    if s != [] {
      FilterMembership(s[1..], drop, ch);
      assert s == [s[0]] + s[1..];
    }
  }

  /** Removing one set and then another removes their union. */
  lemma {:induction false} FilterFilter(s: string, a: set<char>, b: set<char>)
    ensures Filter(Filter(s, a), b) == Filter(s, a + b)
  {
    if s != [] {
      var rest := Filter(s[1..], a);
      FilterFilter(s[1..], a, b);
      if s[0] in a {
        assert Filter(s, a) == rest;
      } else {
        var t := [s[0]] + rest;
        assert Filter(s, a) == t;
        assert t[0] == s[0] && t[1..] == rest;
        assert Filter(t, b) == (if s[0] in b then [] else [s[0]]) + Filter(rest, b);
      }
    }
  }

  /** Filtering removes exactly the dropped characters: a string none of
      whose characters is dropped comes back unchanged. */
  lemma {:induction false} FilterKeepsAll(s: string, drop: set<char>)
    requires forall ch :: ch in s ==> ch !in drop
    ensures Filter(s, drop) == s
  {
    if s != [] {
      assert s[0] in s;
      FilterKeepsAll(s[1..], drop);
      assert [s[0]] + s[1..] == s;
    }
  }

  /** Python's `any(c in alphabet for c in password)`: some character of the
      password occurs in the alphabet, so neither can be empty. */
  predicate HasAny(password: string, alphabet: string): (found: bool)
    ensures found ==> password != [] && alphabet != []
  {
    exists i | 0 <= i < |password| :: password[i] in alphabet
  }

  /** The scan behind `any(c in alphabet for c in password)`. */
  method AnyIn(password: string, alphabet: string) returns (found: bool)
    ensures found == HasAny(password, alphabet)
  {
    found := false;
    var i := 0;
    while i < |password| && !found
      invariant 0 <= i <= |password|
      invariant found <==> exists j | 0 <= j < i :: password[j] in alphabet
    {
      found := password[i] in alphabet;
      i := i + 1;
    }
  }
}
