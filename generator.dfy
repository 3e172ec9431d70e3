/** Password generation: the draw from the pool and the category repair pass
    of generate_password (main.py:50-79). */
module Generator {
  import opened Charsets
  import opened CharacterPool

  /** The two random draws of one repair step: `position` feeds
      random.randint(0, length - 1) and `pick` feeds random.choice on the
      category's alphabet. */
  datatype Fix = Fix(position: nat, pick: nat)

  /** Everything generate_password takes from the random module. Each draw
      is an arbitrary natural number reduced modulo the size of what it draws
      from, so every outcome of the random source is some choice of these
      numbers: `draws[i]` picks the i-th character from the pool, and the
      fixes serve the repair steps of the four categories. */
  datatype Randomness = Randomness(
    draws: seq<nat>,
    upperFix: Fix,
    lowerFix: Fix,
    digitFix: Fix,
    symbolFix: Fix)
  {
    function FixFor(c: Category): Fix
    {
      match c
      case Upper => upperFix
      case Lower => lowerFix
      case Digit => digitFix
      case Symbol => symbolFix
    }
  }

  /** The exceptions a repair step can raise: ValueError from
      random.randint(0, length - 1) when length < 1, and IndexError from
      random.choice on an empty alphabet. */
  datatype Error = EmptyRange | EmptySequence

  datatype Option<T> = None | Some(value: T)

  /** How a call of generate_password ends: with a password, with None
      because the pool is empty, or with the exception raised by the repair
      step of `category`. */
  datatype Outcome =
    | Password(password: string)
    | NoCharacterTypes
    | Raised(category: Category, error: Error)

  /** The number of characters drawn: range(length) is empty when length < 1. */
  function DrawCount(length: int): (n: nat)
    ensures n >= length && (n == length || n == 0)
  {
    if length > 0 then length else 0
  }

  /** The first password of main.py:56: one random.choice over the pool per
      position. */
  function Draw(pool: string, draws: seq<nat>, n: nat): (r: string)
    requires pool != [] && n <= |draws|
    ensures |r| == n
    ensures forall i :: 0 <= i < n ==> r[i] in pool
  {
    seq(n, i requires 0 <= i < n => pool[draws[i] % |pool|])
  }

  /** One block of main.py:59-77: when the category is enabled and the
      password holds none of its characters, overwrite the position drawn by
      randint with a character drawn from the alphabet. */
  function RepairStep(pw: string, length: int, enabled: bool, alphabet: string, fix: Fix, c: Category): (r: Outcome)
    requires |pw| == DrawCount(length)
    ensures !r.NoCharacterTypes?
    ensures r.Raised? <==> enabled && !HasAny(pw, alphabet) && (length < 1 || alphabet == [])
    ensures r.Raised? ==> r.category == c && (r.error == EmptyRange <==> length < 1)
    ensures r.Password? ==> |r.password| == |pw|
    ensures r.Password? && (!enabled || HasAny(pw, alphabet)) ==> r.password == pw
  {
    if !enabled || HasAny(pw, alphabet) then Password(pw)
    else if length < 1 then Raised(c, EmptyRange)
    else if alphabet == [] then Raised(c, EmptySequence)
    else
      var k := fix.position % length;
      Password(pw[k := alphabet[fix.pick % |alphabet|]])
  }

  /** A repair step that returns changes at most one position, writes a
      character of the category's alphabet there, and leaves an enabled
      category present. */
  lemma RepairStepEffect(pw: string, length: int, enabled: bool, alphabet: string, fix: Fix, c: Category)
    requires |pw| == DrawCount(length)
    requires RepairStep(pw, length, enabled, alphabet, fix, c).Password?
    ensures var p := RepairStep(pw, length, enabled, alphabet, fix, c).password;
      (p == pw || exists k :: 0 <= k < |pw| && p == pw[k := p[k]] && p[k] in alphabet) &&
      (forall i :: 0 <= i < |pw| ==> p[i] == pw[i] || p[i] in alphabet) &&
      (enabled ==> HasAny(p, alphabet))
  {
    var p := RepairStep(pw, length, enabled, alphabet, fix, c).password;
    if enabled && !HasAny(pw, alphabet) {
      var k := fix.position % length;
      assert p == pw[k := p[k]] && p[k] in alphabet;
    }
  }

  /** The repair steps of `cats`, in order, each working on the password the
      previous one left; the first exception ends the pass. */
  function Repairs(pw: string, cfg: Config, a: Alphabets, rnd: Randomness, cats: seq<Category>): (r: Outcome)
    requires |pw| == DrawCount(cfg.length)
    ensures !r.NoCharacterTypes?
    ensures r.Password? ==> |r.password| == |pw|
    ensures r.Raised? ==> r.category in cats && cfg.Enabled(r.category)
    decreases |cats|
  {
    if cats == [] then Password(pw)
    else
      var c := cats[0];
      var step := RepairStep(pw, cfg.length, cfg.Enabled(c), a.Of(c), rnd.FixFor(c), c);
      if step.Password? then Repairs(step.password, cfg, a, rnd, cats[1..]) else step
  }

  /** The characters drawn from the pool before the repair pass (main.py:56) */
  function InitialDraw(cfg: Config, rnd: Randomness): string
    requires |rnd.draws| >= cfg.length
    requires Pool(cfg, AlphabetsFor(cfg.noSimilar, cfg.excludeChars)) != []
  {
    Draw(Pool(cfg, AlphabetsFor(cfg.noSimilar, cfg.excludeChars)), rnd.draws, DrawCount(cfg.length))
  }

  /** generate_password, for every behaviour of the random source: None
      exactly when no enabled category has a character left, an exception
      only from an enabled category's repair, and otherwise a password of
      the drawn length. */
  function Generate(cfg: Config, rnd: Randomness): (r: Outcome)
    requires |rnd.draws| >= cfg.length
    ensures r.NoCharacterTypes? <==>
      (cfg.useUppercase ==> Alphabet(Upper, cfg.noSimilar, cfg.excludeChars) == []) &&
      (cfg.useLowercase ==> Alphabet(Lower, cfg.noSimilar, cfg.excludeChars) == []) &&
      (cfg.useDigits ==> Alphabet(Digit, cfg.noSimilar, cfg.excludeChars) == []) &&
      (cfg.useSymbols ==> Alphabet(Symbol, cfg.noSimilar, cfg.excludeChars) == [])
    ensures r.Raised? ==> cfg.Enabled(r.category)
    ensures r.Password? ==> |r.password| == DrawCount(cfg.length)
  {
    var a := AlphabetsFor(cfg.noSimilar, cfg.excludeChars);
    if Pool(cfg, a) == [] then NoCharacterTypes
    else Repairs(InitialDraw(cfg, rnd), cfg, a, rnd, RepairOrder)
  }

  /** One repair block of main.py:59-77, updating the password in place. */
  method RepairCategory(password: array<char>, length: int, enabled: bool, alphabet: string, fix: Fix, ghost c: Category)
    returns (failure: Option<Error>)
    requires password.Length == DrawCount(length)
    modifies password
    ensures var s := RepairStep(old(password[..]), length, enabled, alphabet, fix, c);
      match failure
      case None => s.Password? && password[..] == s.password
      case Some(e) => s == Raised(c, e) && password[..] == old(password[..])
  {
    failure := None;
    if enabled {
      var present := AnyIn(password[..], alphabet);
      if !present {
        if length < 1 {
          failure := Some(EmptyRange);
        } else {
          var idx := fix.position % length;
          if alphabet == [] {
            failure := Some(EmptySequence);
          } else {
            password[idx] := alphabet[fix.pick % |alphabet|];
          }
        }
      }
    }
  }

  /** main.py:39-48: the pool grows by the alphabet of every enabled category. */
  method BuildPool(cfg: Config, a: Alphabets) returns (pool: string)
    ensures pool == Pool(cfg, a)
  {
    pool := "";
    if cfg.useUppercase {
      pool := pool + a.upper;
    }
    if cfg.useLowercase {
      pool := pool + a.lower;
    }
    if cfg.useDigits {
      pool := pool + a.digits;
    }
    if cfg.useSymbols {
      pool := pool + a.symbols;
    }
  }

  /** main.py:56: `length` characters drawn from the pool, into a fresh array. */
  method DrawPassword(pool: string, draws: seq<nat>, n: nat) returns (password: array<char>)
    requires pool != [] && n <= |draws|
    ensures fresh(password)
    ensures password[..] == Draw(pool, draws, n)
  {
    password := new char[n];
    for i := 0 to n
      invariant forall j :: 0 <= j < i ==> password[j] == pool[draws[j] % |pool|]
    {
      password[i] := pool[draws[i] % |pool|];
    }
  }

  /** The four repair blocks of main.py:59-77, in the order upper, lower,
      digits, symbols, on the drawn password held in `password`. */
  method RepairPass(password: array<char>, cfg: Config, a: Alphabets, rnd: Randomness) returns (r: Outcome)
    requires password.Length == DrawCount(cfg.length)
    modifies password
    ensures r == Repairs(old(password[..]), cfg, a, rnd, RepairOrder)
    ensures r.Password? ==> password[..] == r.password
  {
    ghost var goal := Repairs(password[..], cfg, a, rnd, RepairOrder);

    var failure := RepairCategory(password, cfg.length, cfg.useUppercase, a.upper, rnd.upperFix, Upper);
    if failure.Some? {
      return Raised(Upper, failure.value);
    }
    assert goal == Repairs(password[..], cfg, a, rnd, RepairOrder[1..]);

    failure := RepairCategory(password, cfg.length, cfg.useLowercase, a.lower, rnd.lowerFix, Lower);
    if failure.Some? {
      return Raised(Lower, failure.value);
    }
    assert goal == Repairs(password[..], cfg, a, rnd, RepairOrder[2..]);

    failure := RepairCategory(password, cfg.length, cfg.useDigits, a.digits, rnd.digitFix, Digit);
    if failure.Some? {
      return Raised(Digit, failure.value);
    }
    assert goal == Repairs(password[..], cfg, a, rnd, RepairOrder[3..]);

    failure := RepairCategory(password, cfg.length, cfg.useSymbols, a.symbols, rnd.symbolFix, Symbol);
    if failure.Some? {
      return Raised(Symbol, failure.value);
    }
    assert goal == Repairs(password[..], cfg, a, rnd, RepairOrder[4..]);
    r := Password(password[..]);
  }

  /** generate_password (main.py:15-79), with the password an array of
      characters updated by index. */
  method GeneratePassword(cfg: Config, rnd: Randomness) returns (r: Outcome)
    requires |rnd.draws| >= cfg.length
    ensures r == Generate(cfg, rnd)
  {
    var a := FilterAlphabets(cfg.noSimilar, cfg.excludeChars);
    assert a == AlphabetsFor(cfg.noSimilar, cfg.excludeChars) by {
      assert a.upper == a.Of(Upper) && a.lower == a.Of(Lower);
      assert a.digits == a.Of(Digit) && a.symbols == a.Of(Symbol);
    }
    var pool := BuildPool(cfg, a);
    if pool == [] {
      return NoCharacterTypes;
    }

    var password := DrawPassword(pool, rnd.draws, DrawCount(cfg.length));
    r := RepairPass(password, cfg, a, rnd);
  }
}
