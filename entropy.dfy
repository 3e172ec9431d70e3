/** The entropy estimate of calculate_entropy (main.py:81-92) and the strength
    bands of estimate_strength (main.py:94-107). Entropy is a number of bits
    divided by 8 in the source; the model keeps the numerator, an integer
    number of eighths of a bit. */
module Entropy {
  import opened Charsets

  /** The unfiltered character sets of main.py:83, in the order of the loop */
  const EntropySets: seq<string> := [Lowercase, Uppercase, Digits, Punctuation]

  /** Python's `int(b)` for a boolean factor of a product */
  function Ind(b: bool): nat
  {
    if b then 1 else 0
  }

  function Abs(n: int): nat
  {
    if n < 0 then -n else n
  }

  function Pow2(k: nat): (r: nat)
    ensures r >= 1
  {
    if k == 0 then 1 else 2 * Pow2(k - 1)
  }

  /** Python's int.bit_length: the number of binary digits of |n|, so that
      bit_length(-1) == 1 and bit_length(0) == 0. */
  function BitLength(n: int): (r: nat)
    ensures r == 0 <==> n == 0
    ensures r > 0 ==> Pow2(r - 1) <= Abs(n) < Pow2(r)
    decreases Abs(n)
  {
    if n == 0 then 0 else 1 + BitLength(Abs(n) / 2)
  }

  /** bit_length grows with its argument */
  lemma {:induction false} BitLengthMonotone(m: nat, n: nat)
    requires m <= n
    ensures BitLength(m) <= BitLength(n)
    decreases n
  {
    if m != 0 {
      BitLengthMonotone(m / 2, n / 2);
    }
  }

  /** The pool size accumulated over `sets`: the size of every set the
      password has a character of. */
  function PoolSize(password: string, sets: seq<string>): (size: nat)
    ensures password == [] ==> size == 0
    ensures sets != [] && HasAny(password, sets[|sets| - 1]) ==> size >= |sets[|sets| - 1]|
  {
    if sets == [] then 0
    else
      var last := sets[|sets| - 1];
      PoolSize(password, sets[..|sets| - 1]) + (if HasAny(password, last) then |last| else 0)
  }

  /** char_pool_size after the loop of main.py:86-88: 26 per letter case, 10
      for digits and 32 for punctuation, counted for each class the password
      touches. */
  function CharPoolSize(password: string): (size: nat)
    ensures size ==
      26 * Ind(HasAny(password, Lowercase)) + 26 * Ind(HasAny(password, Uppercase))
      + 10 * Ind(HasAny(password, Digits)) + 32 * Ind(HasAny(password, Punctuation))
  {
    var s := EntropySets;
    assert s[..3] == [Lowercase, Uppercase, Digits];
    assert s[..3][..2] == [Lowercase, Uppercase];
    assert s[..3][..2][..1] == [Lowercase];
    assert s[..3][..2][..1][..0] == [];
    assert |Lowercase| == 26 && |Uppercase| == 26 && |Digits| == 10 && |Punctuation| == 32;
    var p1 := PoolSize(password, [Lowercase]);
    var p2 := PoolSize(password, [Lowercase, Uppercase]);
    var p3 := PoolSize(password, [Lowercase, Uppercase, Digits]);
    assert p1 == PoolSize(password, []) + 26 * Ind(HasAny(password, Lowercase));
    assert p2 == p1 + 26 * Ind(HasAny(password, Uppercase));
    assert p3 == p2 + 10 * Ind(HasAny(password, Digits));
    assert PoolSize(password, s) == p3 + 32 * Ind(HasAny(password, Punctuation));
    PoolSize(password, s)
  }

  /** The pool size lies between 0 and 94, is 0 for the empty password, and
      is 94 exactly when the password touches all four classes. */
  lemma CharPoolSizeRange(password: string)
    ensures CharPoolSize(password) <= 94
    ensures password == [] ==> CharPoolSize(password) == 0
    ensures CharPoolSize(password) == 94 <==>
      HasAny(password, Lowercase) && HasAny(password, Uppercase) &&
      HasAny(password, Digits) && HasAny(password, Punctuation)
  {
  }

  /** The numerator of main.py:90-92 exactly as written, on the length `n`
      and the pool size: the length factor occurs twice, and bit_length is
      applied to size - 1 even when that is -1. It is the squared length
      times bit_length(size - 1) when the password is non-empty and the
      pool holds more than one character, and 0 otherwise. */
  function EntropyFormula(n: nat, size: nat): (r: nat)
    ensures r == if n > 0 && size > 1 then n * n * BitLength(size - 1) else 0
  {
    IndicatorProduct(n, size, BitLength(size - 1));
    n * Ind(n > 0) * Ind(size > 0) * (Ind(size > 1) * (n * BitLength(size - 1)))
  }

  /** calculate_entropy(password), in eighths of a bit: never more than
      7 * n * n, and 0 for the empty password. */
  function EntropyEighths(password: string): (eighths: nat)
    ensures eighths <= 7 * (|password| * |password|)
    ensures password == [] ==> eighths == 0
  {
    CharPoolSizeRange(password);
    EntropyFormulaBound(|password|, CharPoolSize(password));
    EntropyFormula(|password|, CharPoolSize(password))
  }

  /** The boolean factors of main.py:90-91 select between n * n * b and 0. */
  lemma IndicatorProduct(n: nat, size: nat, b: nat)
    ensures n * Ind(n > 0) * Ind(size > 0) * (Ind(size > 1) * (n * b))
      == if n > 0 && size > 1 then n * n * b else 0
  {
    if n > 0 && size > 1 {
      assert Ind(n > 0) == 1 && Ind(size > 0) == 1 && Ind(size > 1) == 1;
    } else if n == 0 {
      assert n * Ind(n > 0) == 0;
    } else {
      assert Ind(size > 1) == 0;
    }
  }

  /** A pool of at most 94 characters gives at most 7 bits per squared
      length unit. */
  lemma EntropyFormulaBound(n: nat, size: nat)
    requires size <= 94
    ensures EntropyFormula(n, size) <= 7 * (n * n)
    ensures size == 94 ==> EntropyFormula(n, size) == 7 * (n * n)
  {
    if n > 0 && size > 1 {
      var b := BitLength(size - 1);
      assert b <= 7 by {
        BitLengthMonotone(size - 1, 93);
        BitLength93();
      }
      var m := n * n;
      MultiplyLessEqual(m, b, 7);
      if size == 94 {
        BitLength93();
      }
    }
  }

  lemma MultiplyLessEqual(a: nat, b: nat, c: nat)
    requires b <= c
    ensures a * b <= a * c
  {
  }

  /** bit_length is the one k with 2^(k-1) <= n < 2^k. */
  lemma {:induction false} BitLengthOf(n: nat, k: nat)
    requires k > 0 && Pow2(k - 1) <= n < Pow2(k)
    ensures BitLength(n) == k
    decreases k
  {
    if k > 1 {
      assert Pow2(k - 1) == 2 * Pow2(k - 2);
      BitLengthOf(n / 2, k - 1);
    } else {
      assert n == 1;
      assert BitLength(n) == 1 + BitLength(0);
    }
  }

  lemma BitLength93()
    ensures BitLength(93) == 7
  {
    assert Pow2(6) == 64 by {
      assert Pow2(1) == 2 && Pow2(2) == 4 && Pow2(3) == 8 && Pow2(4) == 16 && Pow2(5) == 32;
    }
    assert Pow2(7) == 128;
    BitLengthOf(93, 7);
  }

  /** A password touching all four classes has pool size 94 and entropy of
      exactly 7 * n * n eighths. */
  lemma FullPoolEntropy(password: string)
    requires HasAny(password, Lowercase) && HasAny(password, Uppercase)
    requires HasAny(password, Digits) && HasAny(password, Punctuation)
    ensures EntropyEighths(password) == 7 * (|password| * |password|)
  {
    CharPoolSizeRange(password);
    EntropyFormulaBound(|password|, CharPoolSize(password));
  }

  /** The scan of main.py:86-88 */
  method CalculateEntropy(password: string) returns (eighths: int)
    ensures eighths == EntropyEighths(password)
  {
    var size := 0;
    for i := 0 to |EntropySets|
      invariant size == PoolSize(password, EntropySets[..i])
    {
      var charSet := EntropySets[i];
      assert EntropySets[..i + 1][..i] == EntropySets[..i];
      var touched := AnyIn(password, charSet);
      if touched {
        size := size + |charSet|;
      }
    }
    assert EntropySets[..|EntropySets|] == EntropySets;
    var n := |password|;
    eighths := n * Ind(n > 0) * Ind(size > 0) * (Ind(size > 1) * (n * BitLength(size - 1)));
    assert eighths == EntropyFormula(n, size);
  }

  /** The strings estimate_strength returns, from the weakest band up */
  const Labels: seq<string> := ["Very Weak", "Weak", "Moderate", "Strong", "Very Strong"]

  /** The five verdicts of estimate_strength */
  datatype Strength = VeryWeak | Weak | Moderate | Strong | VeryStrong
  {
    /** The string estimate_strength returns */
    function Label(): (text: string)
      ensures text in ["Very Weak", "Weak", "Moderate", "Strong", "Very Strong"]
      ensures text == Labels[Level()]
    {
      match this
      case VeryWeak => "Very Weak"
      case Weak => "Weak"
      case Moderate => "Moderate"
      case Strong => "Strong"
      case VeryStrong => "Very Strong"
    }

    /** The band's rank, 0 for Very Weak up to 4 for Very Strong */
    function Level(): (level: nat)
      ensures level < |Labels|
    {
      match this
      case VeryWeak => 0
      case Weak => 1
      case Moderate => 2
      case Strong => 3
      case VeryStrong => 4
    }
  }

  /** The value calculate_entropy returns, in bits */
  ghost function Bits(eighths: nat): real
  {
    eighths as real / 8.0
  }

  /** The bands of main.py:98-107, tested on the entropy in bits with strict
      comparisons against 28, 36, 60 and 128. */
  function Rating(eighths: nat): (s: Strength)
    ensures s == VeryWeak <==> Bits(eighths) < 28.0
    ensures s == Weak <==> 28.0 <= Bits(eighths) < 36.0
    ensures s == Moderate <==> 36.0 <= Bits(eighths) < 60.0
    ensures s == Strong <==> 60.0 <= Bits(eighths) < 128.0
    ensures s == VeryStrong <==> 128.0 <= Bits(eighths)
  {
    if eighths < 224 then VeryWeak
    else if eighths < 288 then Weak
    else if eighths < 480 then Moderate
    else if eighths < 1024 then Strong
    else VeryStrong
  }

  /** A larger entropy never gives a lower band. */
  lemma RatingMonotone(e: nat, f: nat)
    requires e <= f
    ensures Rating(e).Level() <= Rating(f).Level()
  {
  }

  /** The five labels are distinct, so the returned string determines the band. */
  lemma LabelsDistinct(s: Strength, t: Strength)
    ensures s.Label() == t.Label() <==> s == t
  {
    if s != t {
      assert s.Label() != t.Label();
    }
  }

  /** estimate_strength(password): never above the band of a password of
      the same length touching all four classes. */
  function EstimateStrength(password: string): (s: Strength)
    ensures s.Level() <= Rating(7 * (|password| * |password|)).Level()
  {
    RatingMonotone(EntropyEighths(password), 7 * (|password| * |password|));
    Rating(EntropyEighths(password))
  }

  /** Passwords of at most 5 characters are always "Very Weak". */
  lemma ShortIsVeryWeak(password: string)
    requires |password| <= 5
    ensures EstimateStrength(password) == VeryWeak
  {
    var n := |password|;
    assert n * n <= 25 by {
      MultiplyLessEqual(n, n, 5);
      MultiplyLessEqual(5, n, 5);
    }
  }

  /** A password of 12 characters touching every class is "Strong", and one
      of 13 or more is "Very Strong". */
  lemma FullPoolStrength(password: string)
    requires HasAny(password, Lowercase) && HasAny(password, Uppercase)
    requires HasAny(password, Digits) && HasAny(password, Punctuation)
    requires |password| >= 12
    ensures |password| == 12 ==> EstimateStrength(password) == Strong
    ensures |password| >= 13 ==> EstimateStrength(password) == VeryStrong
  {
    FullPoolEntropy(password);
    var n := |password|;
    SquareAtLeast(n, 12);
    if n >= 13 {
      SquareAtLeast(n, 13);
    }
  }

  /** The squares behind the strength bands of full-pool passwords */
  lemma SquareAtLeast(n: nat, k: nat)
    requires n >= k
    ensures n * n >= k * k
    ensures n == k ==> n * n == k * k
  {
    MultiplyLessEqual(n, k, n);
    MultiplyLessEqual(k, k, n);
  }
}
