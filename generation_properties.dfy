/** What generate_password guarantees, and what it does not, for every
    behaviour of the random source. */
module GenerationProperties {
  import opened Charsets
  import opened CharacterPool
  import opened Generator

  lemma AlphabetsForOf(cfg: Config)
    ensures forall c :: AlphabetsFor(cfg.noSimilar, cfg.excludeChars).Of(c) == Alphabet(c, cfg.noSimilar, cfg.excludeChars)
  {
    forall c ensures AlphabetsFor(cfg.noSimilar, cfg.excludeChars).Of(c) == Alphabet(c, cfg.noSimilar, cfg.excludeChars) {
      match c
      case Upper =>
      case Lower =>
      case Digit =>
      case Symbol =>
    }
  }

  lemma RankInOrder(c: Category)
    ensures Rank(c) < |RepairOrder| && RepairOrder[Rank(c)] == c
  {
  }

  lemma OrderRank(j: nat)
    requires j < |RepairOrder|
    ensures Rank(RepairOrder[j]) == j
  {
    if j == 0 {
    } else if j == 1 {
    } else if j == 2 {
    } else {
    }
  }

  // ---------------------------------------------------------------------------
  // The repair pass over any list of categories

  /** Steps whose category is disabled or already present leave the password as it is. */
  lemma {:induction false} RepairsKeepCovered(pw: string, cfg: Config, a: Alphabets, rnd: Randomness, cats: seq<Category>)
    requires |pw| == DrawCount(cfg.length)
    requires forall k :: 0 <= k < |cats| && cfg.Enabled(cats[k]) ==> HasAny(pw, a.Of(cats[k]))
    ensures Repairs(pw, cfg, a, rnd, cats) == Password(pw)
    decreases |cats|
  {
    if cats != [] {
      assert forall k :: 0 <= k < |cats| - 1 ==> cats[1..][k] == cats[k + 1];
      RepairsKeepCovered(pw, cfg, a, rnd, cats[1..]);
    }
  }

  /** Every character the pass leaves is either the drawn one or one of an
      enabled category's alphabet. */
  lemma {:induction false} RepairsCharacters(pw: string, cfg: Config, a: Alphabets, rnd: Randomness, cats: seq<Category>)
    requires |pw| == DrawCount(cfg.length)
    ensures var r := Repairs(pw, cfg, a, rnd, cats);
      r.Password? ==> forall i :: 0 <= i < |pw| ==>
        (r.password[i] == pw[i] ||
         exists k :: 0 <= k < |cats| && cfg.Enabled(cats[k]) && r.password[i] in a.Of(cats[k]))
    decreases |cats|
  {
    if cats != [] {
      var c := cats[0];
      var s := RepairStep(pw, cfg.length, cfg.Enabled(c), a.Of(c), rnd.FixFor(c), c);
      var r := Repairs(pw, cfg, a, rnd, cats);
      if s.Password? && r.Password? {
        RepairStepEffect(pw, cfg.length, cfg.Enabled(c), a.Of(c), rnd.FixFor(c), c);
        RepairsCharacters(s.password, cfg, a, rnd, cats[1..]);
        forall i | 0 <= i < |pw|
          ensures r.password[i] == pw[i] ||
            exists k :: 0 <= k < |cats| && cfg.Enabled(cats[k]) && r.password[i] in a.Of(cats[k])
        {
          if r.password[i] != s.password[i] {
            var k :| 0 <= k < |cats| - 1 && cfg.Enabled(cats[1..][k]) && r.password[i] in a.Of(cats[1..][k]);
            assert cats[1..][k] == cats[k + 1];
          } else if s.password[i] != pw[i] {
            assert cfg.Enabled(cats[0]) && r.password[i] in a.Of(cats[0]);
          }
        }
      }
    }
  }

  /** With at least one position and no enabled alphabet empty, no step raises. */
  lemma {:induction false} RepairsSucceed(pw: string, cfg: Config, a: Alphabets, rnd: Randomness, cats: seq<Category>)
    requires |pw| == DrawCount(cfg.length)
    requires cfg.length >= 1
    requires forall k :: 0 <= k < |cats| && cfg.Enabled(cats[k]) ==> a.Of(cats[k]) != []
    ensures Repairs(pw, cfg, a, rnd, cats).Password?
    decreases |cats|
  {
    if cats != [] {
      var c := cats[0];
      var s := RepairStep(pw, cfg.length, cfg.Enabled(c), a.Of(c), rnd.FixFor(c), c);
      assert s.Password?;
      assert forall k :: 0 <= k < |cats| - 1 ==> cats[1..][k] == cats[k + 1];
      RepairsSucceed(s.password, cfg, a, rnd, cats[1..]);
    }
  }

  /** With no position to overwrite, the first enabled category raises
      ValueError in randint. */
  lemma {:induction false} RepairsEmptyRange(pw: string, cfg: Config, a: Alphabets, rnd: Randomness, cats: seq<Category>)
    returns (k: nat)
    requires |pw| == DrawCount(cfg.length) && cfg.length < 1
    requires exists j :: 0 <= j < |cats| && cfg.Enabled(cats[j])
    ensures k < |cats| && cfg.Enabled(cats[k])
    ensures forall j :: 0 <= j < k ==> !cfg.Enabled(cats[j])
    ensures Repairs(pw, cfg, a, rnd, cats) == Raised(cats[k], EmptyRange)
    decreases |cats|
  {
    var c := cats[0];
    if cfg.Enabled(c) {
      k := 0;
      assert !HasAny(pw, a.Of(c));
    } else {
      var j :| 0 <= j < |cats| && cfg.Enabled(cats[j]);
      assert cats[1..][j - 1] == cats[j];
      var k' := RepairsEmptyRange(pw, cfg, a, rnd, cats[1..]);
      k := k' + 1;
      assert forall i :: 0 < i < k ==> cats[i] == cats[1..][i - 1];
    }
  }

  /** With positions to overwrite, the first enabled category whose alphabet
      is empty raises IndexError in random.choice. */
  lemma {:induction false} RepairsEmptyAlphabet(pw: string, cfg: Config, a: Alphabets, rnd: Randomness, cats: seq<Category>)
    returns (k: nat)
    requires |pw| == DrawCount(cfg.length) && cfg.length >= 1
    requires exists j :: 0 <= j < |cats| && cfg.Enabled(cats[j]) && a.Of(cats[j]) == []
    ensures k < |cats| && cfg.Enabled(cats[k]) && a.Of(cats[k]) == []
    ensures forall j :: 0 <= j < k && cfg.Enabled(cats[j]) ==> a.Of(cats[j]) != []
    ensures Repairs(pw, cfg, a, rnd, cats) == Raised(cats[k], EmptySequence)
    decreases |cats|
  {
    var c := cats[0];
    if cfg.Enabled(c) && a.Of(c) == [] {
      k := 0;
      assert !HasAny(pw, a.Of(c));
    } else {
      var s := RepairStep(pw, cfg.length, cfg.Enabled(c), a.Of(c), rnd.FixFor(c), c);
      assert s.Password?;
      var j :| 0 <= j < |cats| && cfg.Enabled(cats[j]) && a.Of(cats[j]) == [];
      assert cats[1..][j - 1] == cats[j];
      var k' := RepairsEmptyAlphabet(s.password, cfg, a, rnd, cats[1..]);
      k := k' + 1;
      assert forall i :: 0 < i < k ==> cats[i] == cats[1..][i - 1];
    }
  }

  /** The step of the last enabled category in the list leaves that category
      present, since no later step overwrites anything. */
  lemma {:induction false} RepairsLastPresent(pw: string, cfg: Config, a: Alphabets, rnd: Randomness, cats: seq<Category>, k: nat)
    requires |pw| == DrawCount(cfg.length)
    requires k < |cats| && cfg.Enabled(cats[k])
    requires forall j :: k < j < |cats| ==> !cfg.Enabled(cats[j])
    requires Repairs(pw, cfg, a, rnd, cats).Password?
    ensures HasAny(Repairs(pw, cfg, a, rnd, cats).password, a.Of(cats[k]))
    decreases |cats|
  {
    var c := cats[0];
    var s := RepairStep(pw, cfg.length, cfg.Enabled(c), a.Of(c), rnd.FixFor(c), c);
    assert s.Password?;
    assert forall j :: 0 <= j < |cats| - 1 ==> cats[1..][j] == cats[j + 1];
    if k == 0 {
      RepairStepEffect(pw, cfg.length, cfg.Enabled(c), a.Of(c), rnd.FixFor(c), c);
      RepairsKeepCovered(s.password, cfg, a, rnd, cats[1..]);
    } else {
      RepairsLastPresent(s.password, cfg, a, rnd, cats[1..], k - 1);
    }
  }

  // ---------------------------------------------------------------------------
  // generate_password

  /** The empty pool, and only it, makes generate_password return None. */
  lemma GenerateNone(cfg: Config, rnd: Randomness)
    requires |rnd.draws| >= cfg.length
    ensures Generate(cfg, rnd) == NoCharacterTypes <==>
      forall c :: cfg.Enabled(c) ==> Alphabet(c, cfg.noSimilar, cfg.excludeChars) == []
  {
    AlphabetsForOf(cfg);
    PoolEmpty(cfg, AlphabetsFor(cfg.noSimilar, cfg.excludeChars));
  }

  /** generate_password returns a password exactly when the length is
      positive, some category is enabled and no enabled category's alphabet
      was emptied by the filters. */
  lemma GenerateSucceeds(cfg: Config, rnd: Randomness)
    requires |rnd.draws| >= cfg.length
    ensures Generate(cfg, rnd).Password? <==>
      cfg.length >= 1 && (exists c :: cfg.Enabled(c)) &&
      forall c :: cfg.Enabled(c) ==> Alphabet(c, cfg.noSimilar, cfg.excludeChars) != []
  {
    var a := AlphabetsFor(cfg.noSimilar, cfg.excludeChars);
    AlphabetsForOf(cfg);
    PoolEmpty(cfg, a);
    var pool := Pool(cfg, a);
    if pool != [] {
      var drawn := Draw(pool, rnd.draws, DrawCount(cfg.length));
      var c :| cfg.Enabled(c) && a.Of(c) != [];
      RankInOrder(c);
      if cfg.length < 1 {
        var k := RepairsEmptyRange(drawn, cfg, a, rnd, RepairOrder);
      } else if exists d :: cfg.Enabled(d) && a.Of(d) == [] {
        var d :| cfg.Enabled(d) && a.Of(d) == [];
        RankInOrder(d);
        var k := RepairsEmptyAlphabet(drawn, cfg, a, rnd, RepairOrder);
      } else {
        RepairsSucceed(drawn, cfg, a, rnd, RepairOrder);
      }
    }
  }

  /** A length below 1 with a non-empty pool: the first enabled
      category raises ValueError. */
  lemma GenerateEmptyRange(cfg: Config, rnd: Randomness)
    requires |rnd.draws| >= cfg.length
    requires cfg.length < 1
    requires exists c :: cfg.Enabled(c) && Alphabet(c, cfg.noSimilar, cfg.excludeChars) != []
    ensures var r := Generate(cfg, rnd);
      r.Raised? && r.error == EmptyRange && cfg.Enabled(r.category) &&
      forall d :: Rank(d) < Rank(r.category) ==> !cfg.Enabled(d)
  {
    var a := AlphabetsFor(cfg.noSimilar, cfg.excludeChars);
    AlphabetsForOf(cfg);
    PoolEmpty(cfg, a);
    var c :| cfg.Enabled(c) && a.Of(c) != [];
    RankInOrder(c);
    var drawn := Draw(Pool(cfg, a), rnd.draws, DrawCount(cfg.length));
    var k := RepairsEmptyRange(drawn, cfg, a, rnd, RepairOrder);
    forall d | Rank(d) < k ensures !cfg.Enabled(d) {
      RankInOrder(d);
    }
  }

  /** A non-empty pool and an enabled category whose alphabet the filters
      emptied: the first such category raises IndexError. */
  lemma GenerateEmptyAlphabet(cfg: Config, rnd: Randomness)
    requires |rnd.draws| >= cfg.length
    requires cfg.length >= 1
    requires exists c :: cfg.Enabled(c) && Alphabet(c, cfg.noSimilar, cfg.excludeChars) != []
    requires exists c :: cfg.Enabled(c) && Alphabet(c, cfg.noSimilar, cfg.excludeChars) == []
    ensures var r := Generate(cfg, rnd);
      r.Raised? && r.error == EmptySequence && cfg.Enabled(r.category) &&
      Alphabet(r.category, cfg.noSimilar, cfg.excludeChars) == [] &&
      forall d :: Rank(d) < Rank(r.category) && cfg.Enabled(d) ==> Alphabet(d, cfg.noSimilar, cfg.excludeChars) != []
  {
    var a := AlphabetsFor(cfg.noSimilar, cfg.excludeChars);
    AlphabetsForOf(cfg);
    PoolEmpty(cfg, a);
    var drawn := Draw(Pool(cfg, a), rnd.draws, DrawCount(cfg.length));
    assert Generate(cfg, rnd) == Repairs(drawn, cfg, a, rnd, RepairOrder);
    FirstEmptyAlphabet(drawn, cfg, a, rnd);
  }

  /** The pass over RepairOrder raises IndexError at the first enabled
      category whose alphabet is empty. */
  lemma FirstEmptyAlphabet(pw: string, cfg: Config, a: Alphabets, rnd: Randomness)
    requires |pw| == DrawCount(cfg.length) && cfg.length >= 1
    requires exists c :: cfg.Enabled(c) && a.Of(c) == []
    ensures var r := Repairs(pw, cfg, a, rnd, RepairOrder);
      r.Raised? && r.error == EmptySequence && cfg.Enabled(r.category) && a.Of(r.category) == [] &&
      forall d :: Rank(d) < Rank(r.category) && cfg.Enabled(d) ==> a.Of(d) != []
  {
    var c :| cfg.Enabled(c) && a.Of(c) == [];
    RankInOrder(c);
    var k := RepairsEmptyAlphabet(pw, cfg, a, rnd, RepairOrder);
    OrderRank(k);
    forall d | Rank(d) < k && cfg.Enabled(d) ensures a.Of(d) != [] {
      RankInOrder(d);
    }
  }

  /** A returned password has exactly `length` characters. */
  lemma GenerateLength(cfg: Config, rnd: Randomness)
    requires |rnd.draws| >= cfg.length
    requires Generate(cfg, rnd).Password?
    ensures |Generate(cfg, rnd).password| == cfg.length
  {
    GenerateSucceeds(cfg, rnd);
  }

  /** Every character of a returned password belongs to the filtered
      alphabet of an enabled category. */
  lemma GeneratedFromAlphabets(cfg: Config, rnd: Randomness)
    requires |rnd.draws| >= cfg.length
    requires Generate(cfg, rnd).Password?
    ensures var p := Generate(cfg, rnd).password;
      forall i :: 0 <= i < |p| ==> exists c :: cfg.Enabled(c) && p[i] in Alphabet(c, cfg.noSimilar, cfg.excludeChars)
  {
    var a := AlphabetsFor(cfg.noSimilar, cfg.excludeChars);
    AlphabetsForOf(cfg);
    var pool := Pool(cfg, a);
    var drawn := Draw(pool, rnd.draws, DrawCount(cfg.length));
    var p := Generate(cfg, rnd).password;
    RepairsCharacters(drawn, cfg, a, rnd, RepairOrder);
    forall i | 0 <= i < |p|
      ensures exists c :: cfg.Enabled(c) && p[i] in Alphabet(c, cfg.noSimilar, cfg.excludeChars)
    {
      if p[i] == drawn[i] {
        PoolMembership(cfg, a, drawn[i]);
      } else {
        var k :| 0 <= k < |RepairOrder| && cfg.Enabled(RepairOrder[k]) && p[i] in a.Of(RepairOrder[k]);
        assert cfg.Enabled(RepairOrder[k]) && p[i] in Alphabet(RepairOrder[k], cfg.noSimilar, cfg.excludeChars);
      }
    }
  }

  /** A character of a filtered alphabet is neither excluded nor, with
      no_similar, one of "Il1O0o". */
  lemma FilteredOut(cfg: Config, c: Category, ch: char)
    requires ch in Alphabet(c, cfg.noSimilar, cfg.excludeChars)
    ensures ch !in cfg.excludeChars && (cfg.noSimilar ==> ch !in Similar)
  {
    AlphabetMembership(c, cfg.noSimilar, cfg.excludeChars, ch);
  }

  /** No excluded character and, with no_similar, none of "Il1O0o" ever
      appears in a returned password. */
  lemma GeneratedCharacters(cfg: Config, rnd: Randomness)
    requires |rnd.draws| >= cfg.length
    requires Generate(cfg, rnd).Password?
    ensures var p := Generate(cfg, rnd).password;
      forall i :: 0 <= i < |p| ==>
        p[i] !in cfg.excludeChars && (cfg.noSimilar ==> p[i] !in Similar)
  {
    var p := Generate(cfg, rnd).password;
    GeneratedFromAlphabets(cfg, rnd);
    forall i | 0 <= i < |p|
      ensures p[i] !in cfg.excludeChars && (cfg.noSimilar ==> p[i] !in Similar)
    {
      var c :| cfg.Enabled(c) && p[i] in Alphabet(c, cfg.noSimilar, cfg.excludeChars);
      FilteredOut(cfg, c, p[i]);
    }
  }

  /** The last enabled category in the order upper, lower, digits, symbols
      is always present in a returned password. */
  lemma GenerateLastPresent(cfg: Config, rnd: Randomness, c: Category)
    requires |rnd.draws| >= cfg.length
    requires Generate(cfg, rnd).Password?
    requires cfg.Enabled(c)
    requires forall d :: Rank(d) > Rank(c) ==> !cfg.Enabled(d)
    ensures HasAny(Generate(cfg, rnd).password, Alphabet(c, cfg.noSimilar, cfg.excludeChars))
  {
    var a := AlphabetsFor(cfg.noSimilar, cfg.excludeChars);
    assert Pool(cfg, a) != [];
    var drawn := InitialDraw(cfg, rnd);
    assert Generate(cfg, rnd) == Repairs(drawn, cfg, a, rnd, RepairOrder);
    RankInOrder(c);
    forall j | Rank(c) < j < |RepairOrder| ensures !cfg.Enabled(RepairOrder[j]) {
      OrderRank(j);
    }
    RepairsLastPresent(drawn, cfg, a, rnd, RepairOrder, Rank(c));
    AlphabetsForOf(cfg);
  }

  /** When the draw already covers every enabled category, the repair pass
      changes nothing. */
  lemma GenerateKeepsCoveringDraw(cfg: Config, rnd: Randomness)
    requires |rnd.draws| >= cfg.length
    requires Pool(cfg, AlphabetsFor(cfg.noSimilar, cfg.excludeChars)) != []
    requires forall c :: cfg.Enabled(c) ==> HasAny(InitialDraw(cfg, rnd), Alphabet(c, cfg.noSimilar, cfg.excludeChars))
    ensures Generate(cfg, rnd) == Password(InitialDraw(cfg, rnd))
  {
    AlphabetsForOf(cfg);
    RepairsKeepCovered(InitialDraw(cfg, rnd), cfg, AlphabetsFor(cfg.noSimilar, cfg.excludeChars), rnd, RepairOrder);
  }

  /** Coverage is not guaranteed: with length 1 and every category enabled,
      the symbol repair always comes last and overwrites the only position,
      so the password is one symbol and the uppercase, lowercase and digit
      categories, although enabled, are all missing. */
  lemma LengthOneEndsAsSymbol(cfg: Config, rnd: Randomness)
    requires |rnd.draws| >= 1
    requires cfg.length == 1
    requires cfg.useUppercase && cfg.useLowercase && cfg.useDigits && cfg.useSymbols
    requires forall c :: Alphabet(c, cfg.noSimilar, cfg.excludeChars) != []
    ensures var r := Generate(cfg, rnd);
      r.Password? && |r.password| == 1 && r.password[0] in Alphabet(Symbol, cfg.noSimilar, cfg.excludeChars) &&
      !HasAny(r.password, Alphabet(Upper, cfg.noSimilar, cfg.excludeChars)) &&
      !HasAny(r.password, Alphabet(Lower, cfg.noSimilar, cfg.excludeChars)) &&
      !HasAny(r.password, Alphabet(Digit, cfg.noSimilar, cfg.excludeChars))
  {
    var r := Generate(cfg, rnd);
    assert r.Password? && |r.password| == 1 by {
      assert cfg.Enabled(Upper);
      GenerateSucceeds(cfg, rnd);
      GenerateLength(cfg, rnd);
    }
    var p := r.password;
    assert p[0] in Alphabet(Symbol, cfg.noSimilar, cfg.excludeChars) by {
      forall d ensures Rank(d) <= Rank(Symbol) {
        RankInOrder(d);
      }
      GenerateLastPresent(cfg, rnd, Symbol);
    }
    OneSymbolOnly(cfg, p);
  }

  /** A one-character password made of a symbol holds no letter or digit. */
  lemma OneSymbolOnly(cfg: Config, p: string)
    requires |p| == 1 && p[0] in Alphabet(Symbol, cfg.noSimilar, cfg.excludeChars)
    ensures !HasAny(p, Alphabet(Upper, cfg.noSimilar, cfg.excludeChars))
    ensures !HasAny(p, Alphabet(Lower, cfg.noSimilar, cfg.excludeChars))
    ensures !HasAny(p, Alphabet(Digit, cfg.noSimilar, cfg.excludeChars))
  {
    var ch := p[0];
    AlphabetMembership(Symbol, cfg.noSimilar, cfg.excludeChars, ch);
    AlphabetMembership(Upper, cfg.noSimilar, cfg.excludeChars, ch);
    AlphabetMembership(Lower, cfg.noSimilar, cfg.excludeChars, ch);
    AlphabetMembership(Digit, cfg.noSimilar, cfg.excludeChars, ch);
    PunctuationRange(ch);
    UppercaseRange(ch);
    LowercaseRange(ch);
    DigitsRange(ch);
    assert forall i | 0 <= i < |p| :: p[i] == ch;
  }

  /** The default options without exclusions leave every alphabet whole, and
      so non-empty: the length-1 case above applies to them. */
  lemma NoExclusionsKeepAlphabets(cfg: Config)
    requires cfg.excludeChars == [] && !cfg.noSimilar
    ensures forall c :: Alphabet(c, cfg.noSimilar, cfg.excludeChars) == Base(c)
    ensures forall c :: Alphabet(c, cfg.noSimilar, cfg.excludeChars) != []
  {
    forall c ensures |Base(c)| > 0 {
      match c
      case Upper =>
      case Lower =>
      case Digit =>
      case Symbol =>
    }
  }
}
