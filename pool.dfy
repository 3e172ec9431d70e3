/** Character-pool construction: the filtered alphabet of every category and
    the sampling pool made of the enabled ones (main.py:19-48). */
module CharacterPool {
  import opened Charsets

  /** The arguments of generate_password. `length` is a plain integer: the
      source does not reject zero or negative lengths. */
  datatype Config = Config(
    length: int,
    useUppercase: bool,
    useLowercase: bool,
    useDigits: bool,
    useSymbols: bool,
    excludeChars: string,
    noSimilar: bool)
  {
    predicate Enabled(c: Category)
    {
      match c
      case Upper => useUppercase
      case Lower => useLowercase
      case Digit => useDigits
      case Symbol => useSymbols
    }
  }

  /** The characters the filters remove from a category's alphabet: the
      similar-looking glyphs (letters and digits only, and only with
      no_similar), and every excluded character. */
  function Dropped(c: Category, noSimilar: bool, excludeChars: string): set<char>
  {
    SimilarDropped(c, noSimilar) + CharsOf(excludeChars)
  }

  function SimilarDropped(c: Category, noSimilar: bool): set<char>
  {
    if noSimilar && c != Symbol then CharsOf(Similar) else {}
  }

  /** The final alphabet of a category: its base alphabet with the dropped
      characters removed, the others kept in order. */
  function Alphabet(c: Category, noSimilar: bool, excludeChars: string): (r: string)
    ensures |r| <= |Base(c)|
    ensures !noSimilar && excludeChars == [] ==> r == Base(c)
  {
    assert !noSimilar && excludeChars == [] ==> Dropped(c, noSimilar, excludeChars) == {};
    FilterKeepsAll(Base(c), {});
    Filter(Base(c), Dropped(c, noSimilar, excludeChars))
  }

  /** A character survives the filters exactly when it is in the base
      alphabet, is not excluded, and is not a similar-looking glyph while
      no_similar is set. */
  lemma AlphabetMembership(c: Category, noSimilar: bool, excludeChars: string, ch: char)
    ensures ch in Alphabet(c, noSimilar, excludeChars) <==>
      ch in Base(c) && ch !in excludeChars && !(noSimilar && ch in Similar)
  {
    FilterMembership(Base(c), Dropped(c, noSimilar, excludeChars), ch);
    PunctuationNotSimilar(ch);
  }

  /** The four alphabet strings that generate_password keeps in local variables */
  datatype Alphabets = Alphabets(upper: string, lower: string, digits: string, symbols: string)
  {
    function Of(c: Category): string
    {
      match c
      case Upper => upper
      case Lower => lower
      case Digit => digits
      case Symbol => symbols
    }
  }

  function AlphabetsFor(noSimilar: bool, excludeChars: string): Alphabets
  {
    Alphabets(
      Alphabet(Upper, noSimilar, excludeChars),
      Alphabet(Lower, noSimilar, excludeChars),
      Alphabet(Digit, noSimilar, excludeChars),
      Alphabet(Symbol, noSimilar, excludeChars))
  }

  lemma ExcludeNothing(s: string, excludeChars: string)
    ensures Filter(s, CharsOf(excludeChars[..0])) == s
  {
    assert CharsOf(excludeChars[..0]) == {};
    FilterKeepsAll(s, {});
  }

  /** One more turn of the exclusion loop removes one more excluded character. */
  lemma ExcludeOneMore(s: string, excludeChars: string, i: nat)
    requires i < |excludeChars|
    ensures Filter(Filter(s, CharsOf(excludeChars[..i])), {excludeChars[i]})
         == Filter(s, CharsOf(excludeChars[..i + 1]))
  {
    assert excludeChars[..i + 1] == excludeChars[..i] + [excludeChars[i]];
    assert CharsOf(excludeChars[..i + 1]) == CharsOf(excludeChars[..i]) + {excludeChars[i]};
    FilterFilter(s, CharsOf(excludeChars[..i]), {excludeChars[i]});
  }

  /** The filtering of main.py:20-37: the four base alphabets, the no_similar
      filter, then the exclusion loop. */
  method FilterAlphabets(noSimilar: bool, excludeChars: string) returns (a: Alphabets)
    ensures forall c :: a.Of(c) == Alphabet(c, noSimilar, excludeChars)
  {
    var upper, lower, digits, symbols := Uppercase, Lowercase, Digits, Punctuation;
    if noSimilar {
      upper := Filter(upper, CharsOf(Similar));
      lower := Filter(lower, CharsOf(Similar));
      digits := Filter(digits, CharsOf(Similar));
    }
    var start := Alphabets(upper, lower, digits, symbols);
    forall c ensures start.Of(c) == Filter(Base(c), SimilarDropped(c, noSimilar)) {
      if !(noSimilar && c != Symbol) {
        FilterKeepsAll(Base(c), {});
      }
    }
    a := ExcludeAll(start, excludeChars);
    forall c ensures a.Of(c) == Alphabet(c, noSimilar, excludeChars) {
      FilterFilter(Base(c), SimilarDropped(c, noSimilar), CharsOf(excludeChars));
    }
  }

  /** The exclusion loop of main.py:33-37: for every character of
      `excludeChars`, `replace(ch, '')` on each of the four alphabets. */
  method ExcludeAll(start: Alphabets, excludeChars: string) returns (a: Alphabets)
    ensures forall c :: a.Of(c) == Filter(start.Of(c), CharsOf(excludeChars))
  {
    var upper, lower, digits, symbols := start.upper, start.lower, start.digits, start.symbols;
    ExcludeNothing(upper, excludeChars);
    ExcludeNothing(lower, excludeChars);
    ExcludeNothing(digits, excludeChars);
    ExcludeNothing(symbols, excludeChars);
    for i := 0 to |excludeChars|
      invariant upper == Filter(start.upper, CharsOf(excludeChars[..i]))
      invariant lower == Filter(start.lower, CharsOf(excludeChars[..i]))
      invariant digits == Filter(start.digits, CharsOf(excludeChars[..i]))
      invariant symbols == Filter(start.symbols, CharsOf(excludeChars[..i]))
    {
      var ch := excludeChars[i];
      ExcludeOneMore(start.upper, excludeChars, i);
      ExcludeOneMore(start.lower, excludeChars, i);
      ExcludeOneMore(start.digits, excludeChars, i);
      ExcludeOneMore(start.symbols, excludeChars, i);
      upper := Filter(upper, {ch});
      lower := Filter(lower, {ch});
      digits := Filter(digits, {ch});
      symbols := Filter(symbols, {ch});
    }
    assert excludeChars[..|excludeChars|] == excludeChars;
    a := Alphabets(upper, lower, digits, symbols);
  }

  /** The sampling pool: the alphabets of the enabled categories, concatenated
      in the order upper, lower, digits, symbols. */
  function Pool(cfg: Config, a: Alphabets): (r: string)
    ensures |r| == (if cfg.useUppercase then |a.upper| else 0) + (if cfg.useLowercase then |a.lower| else 0)
      + (if cfg.useDigits then |a.digits| else 0) + (if cfg.useSymbols then |a.symbols| else 0)
  {
    (if cfg.useUppercase then a.upper else [])
      + (if cfg.useLowercase then a.lower else [])
      + (if cfg.useDigits then a.digits else [])
      + (if cfg.useSymbols then a.symbols else [])
  }

  /** A character is in the pool exactly when some enabled category's alphabet holds it. */
  lemma PoolMembership(cfg: Config, a: Alphabets, ch: char)
    ensures ch in Pool(cfg, a) <==> exists c :: cfg.Enabled(c) && ch in a.Of(c)
  {
    if ch in Pool(cfg, a) {
      if cfg.useUppercase && ch in a.upper {
        assert cfg.Enabled(Upper) && ch in a.Of(Upper);
      } else if cfg.useLowercase && ch in a.lower {
        assert cfg.Enabled(Lower) && ch in a.Of(Lower);
      } else if cfg.useDigits && ch in a.digits {
        assert cfg.Enabled(Digit) && ch in a.Of(Digit);
      } else {
        assert cfg.Enabled(Symbol) && ch in a.Of(Symbol);
      }
    }
  }

  /** The pool is empty exactly when every enabled category's alphabet is. */
  lemma PoolEmpty(cfg: Config, a: Alphabets)
    ensures Pool(cfg, a) == [] <==> forall c :: cfg.Enabled(c) ==> a.Of(c) == []
  {
    assert a.Of(Upper) == a.upper && a.Of(Lower) == a.lower;
    assert a.Of(Digit) == a.digits && a.Of(Symbol) == a.symbols;
  }
}
