# Password generator, modelled in Dafny

This project models the core of a command-line password generator written in
Python (`main.py`). It covers five pieces of that program:

- **Character-pool construction.**
  - The four base alphabets are ASCII upper case, ASCII lower case, digits and
    the 32 characters of `string.punctuation`.
  - With `no_similar`, the glyphs `Il1O0o` are removed from the letters and
    digits.
  - Every character of `exclude_chars` is then removed from all four alphabets.
  - The pool is the concatenation of the alphabets of the enabled categories.
- **`generate_password`.**
  - It draws `length` characters from the pool.
  - It then repairs each enabled category that is missing, in the fixed order
    upper, lower, digits, symbols. A repair overwrites one random position with
    a random character of that category.
- **`calculate_entropy` and `estimate_strength`.**
  - The entropy is computed from the sizes of the unfiltered classes that the
    password touches.
  - The rating uses five bands.
- **The bounded history of `add_to_history`.** It keeps at most
  `MAX_HISTORY = 10` entries and treats a missing or corrupt file as empty.
- **The password masking of `view_history`.**

## Modelling choices

**Randomness.** Every call into the `random` module is an input.
- A call consumes an arbitrary natural number.
- `random.choice(s)` becomes `s[k % |s|]` and raises `IndexError` when `s` is
  empty (`Error.EmptySequence`).
- `random.randint(0, length - 1)` becomes `k % length` and raises `ValueError`
  when `length < 1` (`Error.EmptyRange`).
- A `Generator.Randomness` value holds the choices for the draw and one
  `(position, pick)` pair per repair block.
- The properties quantify over every such value, so they hold for every
  behaviour of the random source.
- No precondition excludes the inputs that crash. The outcome type
  `Generator.Outcome` has three cases: a password, `None` (the pool is empty),
  or the exception raised by a repair step.

**Entropy.** The entropy is kept as an integer number of eighths of a bit,
which is the numerator of the division by 8 at `main.py:92`. The strength
bands 28, 36, 60 and 128 bits are 224, 288, 480 and 1024 eighths.
`Entropy.Rating` states its bands on the value in bits, as a real number.

**Form of each part.**
- The parts of the source that update state step by step are methods:
  - the exclusion loop: `CharacterPool.ExcludeAll`;
  - the pool concatenation: `Generator.BuildPool`;
  - the drawn password, an array updated by index in each repair block:
    `Generator.RepairCategory` and `Generator.RepairPass`;
  - the class scan of the entropy: `Entropy.CalculateEntropy`;
  - the history file, updated by `History.HistoryStore.AddToHistory`.
- Each method is proved equal to a function that specifies it.
- The properties are lemmas about those functions.

### Where the code falls short of what it says (the model follows the code)

- **Entropy formula.** `calculate_entropy` is documented as "the entropy of
  a password in bits" (`main.py:82`). The entropy of a random password is
  `length × log2(pool)` bits, linear in the length. The code
  (`main.py:90-92`) multiplies by the length twice, so it computes
  `length² × bit_length(pool − 1) / 8`.
  - The model computes the code's value, with its boolean factors exactly as
    written (`Entropy.EntropyFormula`).
  - `bit_length` is also evaluated on `-1` when the pool is empty. That
    factor is then multiplied by 0.
- **Category coverage.** The repair pass is introduced by the comment
  "Verify the password meets the requirements" (`main.py:58`), but it does
  not ensure that every enabled category is present: a later repair can
  overwrite the only character of an earlier category.
  - `GenerationProperties.LengthOneEndsAsSymbol` proves this. With length 1,
    all four categories enabled and no filtered alphabet empty, the result
    is always a single symbol.
  - The guarantee that does hold is
    `GenerationProperties.GenerateLastPresent`: the last enabled category in
    the order is always present.
- **Length.** `--length` accepts any integer (`main.py:172`), and
  `generate_password` does not check it:
  - a length below 1 with a non-empty pool raises `ValueError` in the first
    repair (`GenerationProperties.GenerateEmptyRange`);
  - with a length of at least 1 and a non-empty pool, the first enabled
    category that the exclusions emptied raises `IndexError`
    (`GenerationProperties.GenerateEmptyAlphabet`). When that category is
    the only one enabled, the pool is empty and the result is `None`
    instead (`GenerationProperties.GenerateNone`).

## Model

| member | source | states |
|---|---|---|
| Charsets.UppercaseAsWritten | main.py:20 | the upper-case alphabet, defined as the range 'A'..'Z', is the string of `string.ascii_uppercase` |
| Charsets.LowercaseAsWritten | main.py:21 | the lower-case alphabet is the string of `string.ascii_lowercase` |
| Charsets.DigitsAsWritten | main.py:22 | the digit alphabet is `string.digits` |
| Charsets.PunctuationAsWritten | main.py:23 | the four ASCII runs of punctuation spell out the 32 characters of `string.punctuation` in order |
| Charsets.CharRangeMembership | main.py:20-23 | a character is in an ASCII range exactly when it lies between the range's ends |
| Charsets.PunctuationNotSimilar | main.py:26-30 | no punctuation character is one of `Il1O0o`, so leaving symbols out of the similar filter loses nothing |
| Charsets.Filter | main.py:28-37 | the filtered string is never longer than its input; `Charsets.FilterMembership` gives which characters it keeps and `Charsets.FilterKeepsAll` that a string with nothing to drop comes back unchanged |
| Charsets.FilterMembership | main.py:28-37 | a character survives the filter exactly when it was in the string and is not dropped |
| Charsets.FilterFilter | main.py:33-37 | removing one set of characters and then another removes their union, so the per-character `replace` loop removes all of `exclude_chars` |
| Charsets.FilterKeepsAll | main.py:28-37 | filtering a string that holds no dropped character returns it unchanged, order included |
| Charsets.HasAny | main.py:59 | `any(c in alphabet for c in password)` is false for an empty password and for an empty alphabet (the exact equivalence with the scan is `Charsets.AnyIn`) |
| Charsets.AnyIn | main.py:59 | the scan returns true exactly when some character of the password is in the alphabet |
| CharacterPool.Alphabet | main.py:19-37 | a category's final alphabet is never longer than its base alphabet, and is the base alphabet itself when there are no exclusions and `no_similar` is off |
| CharacterPool.AlphabetMembership | main.py:20-37 | a character is in a category's final alphabet exactly when it is in the base alphabet, is not excluded, and, with `no_similar`, is not one of `Il1O0o` |
| CharacterPool.FilterAlphabets | main.py:19-37 | the four alphabets after the similar filter and the exclusion loop are each the base alphabet with the dropped characters removed, in order |
| CharacterPool.ExcludeAll | main.py:33-37 | after the loop, each alphabet is its starting value with every character of `exclude_chars` removed |
| CharacterPool.Pool | main.py:39-48 | the pool's length is the sum of the lengths of the enabled categories' alphabets |
| CharacterPool.PoolMembership | main.py:39-48 | a character is in the pool exactly when the alphabet of some enabled category holds it |
| CharacterPool.PoolEmpty | main.py:39-53 | the pool is empty exactly when every enabled category's alphabet is empty, including when no category is enabled |
| Generator.BuildPool | main.py:40-48 | the `+=` sequence builds exactly the concatenation of the enabled alphabets in the order upper, lower, digits, symbols |
| Generator.DrawCount | main.py:56 | the number of draws `range(length)` makes is the least natural number not below `length`: `length` itself when positive, otherwise 0 |
| Generator.Draw | main.py:56 | the first password has `length` characters, each taken from the pool |
| Generator.DrawPassword | main.py:56 | the array filled position by position holds exactly the drawn password |
| Generator.RepairStep | main.py:59-77 | a repair block never returns None; it raises exactly when its category is enabled, missing, and either the length is below 1 (`ValueError`) or the alphabet is empty (`IndexError`); it keeps the length; it changes nothing when the category is disabled or already present |
| Generator.RepairStepEffect | main.py:59-77 | a repair block that returns changes at most one position, writes a character of its category there, and leaves an enabled category present |
| Generator.Repairs | main.py:59-77 | the pass never returns None, keeps the password's length, and an exception comes only from an enabled category of the list |
| Generator.RepairCategory | main.py:59-77 | the in-place repair of any one of the four blocks either raises the exception `Generator.RepairStep` gives, with the password untouched, or leaves the array equal to the password `Generator.RepairStep` returns |
| Generator.RepairPass | main.py:59-77 | the four in-place blocks, stopping at the first exception, give exactly `Generator.Repairs` over upper, lower, digits, symbols, and a returned password is what the array holds |
| Generator.Generate | main.py:15-79 | `generate_password` returns None exactly when every enabled category's filtered alphabet is empty, raises only in the repair of an enabled category, and otherwise returns a password of the drawn length |
| Generator.GeneratePassword | main.py:15-79 | the whole procedure, with the password an array updated by index, returns exactly `Generator.Generate` for every configuration and every behaviour of the random source |
| GenerationProperties.RepairsKeepCovered | main.py:59-77 | if every enabled category of the list is already present, the pass returns the password unchanged |
| GenerationProperties.RepairsCharacters | main.py:59-77 | each character after the pass is the drawn one or belongs to the alphabet of an enabled category of the list |
| GenerationProperties.RepairsSucceed | main.py:59-77 | with length at least 1 and no enabled alphabet empty, no repair raises |
| GenerationProperties.RepairsEmptyRange | main.py:59-77 | with length below 1, the first enabled category of the list raises `ValueError` |
| GenerationProperties.RepairsEmptyAlphabet | main.py:59-77 | with positions to overwrite, the first enabled category with an empty alphabet raises `IndexError` |
| GenerationProperties.RepairsLastPresent | main.py:59-77 | the last enabled category of the list is present when the pass returns |
| GenerationProperties.GenerateNone | main.py:50-53 | the result is None exactly when every enabled category's filtered alphabet is empty |
| GenerationProperties.GenerateSucceeds | main.py:50-79 | a password is returned exactly when the length is at least 1, some category is enabled and no enabled filtered alphabet is empty |
| GenerationProperties.GenerateEmptyRange | main.py:56-61 | with a non-empty pool and a length below 1, the first enabled category raises `ValueError` |
| GenerationProperties.GenerateEmptyAlphabet | main.py:59-77 | with a non-empty pool, length at least 1 and an enabled category emptied by the filters, the first such category raises `IndexError` |
| GenerationProperties.FirstEmptyAlphabet | main.py:59-77 | the pass over upper, lower, digits, symbols raises `IndexError` at the first enabled category whose alphabet is empty |
| GenerationProperties.GenerateLength | main.py:56-77 | a returned password has exactly `length` characters |
| GenerationProperties.GeneratedFromAlphabets | main.py:39-77 | every character of a returned password belongs to the filtered alphabet of an enabled category |
| GenerationProperties.FilteredOut | main.py:25-37 | a character of a filtered alphabet is not excluded and, with `no_similar`, is not one of `Il1O0o` |
| GenerationProperties.GeneratedCharacters | main.py:25-77 | no excluded character, and with `no_similar` none of `Il1O0o`, ever appears in a returned password |
| GenerationProperties.GenerateLastPresent | main.py:59-77 | the last enabled category in the order upper, lower, digits, symbols is always present in a returned password |
| GenerationProperties.GenerateKeepsCoveringDraw | main.py:56-77 | when the draw already covers every enabled category, the result is the draw itself |
| GenerationProperties.LengthOneEndsAsSymbol | main.py:56-77 | with length 1, all categories enabled and no filtered alphabet empty, the result is one symbol, and the upper, lower and digit categories are all missing although enabled |
| GenerationProperties.OneSymbolOnly | main.py:20-23 | a one-character password made of a symbol holds no letter or digit |
| GenerationProperties.NoExclusionsKeepAlphabets | main.py:20-37 | without exclusions and without `no_similar`, every filtered alphabet is its whole base alphabet, so none is empty |
| Entropy.BitLength | main.py:91 | `int.bit_length` is 0 only for 0, and otherwise is the k with 2^(k-1) <= abs(n) < 2^k |
| Entropy.BitLengthOf | main.py:91 | bit_length is the unique k with 2^(k-1) <= n < 2^k |
| Entropy.BitLengthMonotone | main.py:91 | for non-negative arguments, bit_length never decreases as its argument grows (not for negative ones: bit_length(-1) is 1, bit_length(0) is 0) |
| Entropy.PoolSize | main.py:83-88 | the running total `char_pool_size` is 0 for the empty password and counts the whole size of the last class whenever the password touches it |
| Entropy.CharPoolSize | main.py:83-88 | the pool size is 26 for lower case, 26 for upper case, 10 for digits and 32 for punctuation, summed over the classes the password touches |
| Entropy.CharPoolSizeRange | main.py:83-88 | the pool size is at most 94, is 0 for the empty password, and is 94 exactly when all four classes occur |
| Entropy.IndicatorProduct | main.py:90-91 | the boolean factors of the product select between the length times the length times the bit length, and 0 |
| Entropy.EntropyFormula | main.py:90-92 | the entropy in eighths is length² · bit_length(pool − 1) when the password is non-empty and the pool has more than one character, and 0 otherwise |
| Entropy.EntropyFormulaBound | main.py:90-92 | with a pool of at most 94 characters the entropy is at most 7·n² eighths, and exactly that for 94 |
| Entropy.EntropyEighths | main.py:81-92 | `calculate_entropy` of any password is at most 7·n² eighths, and 0 for the empty password |
| Entropy.FullPoolEntropy | main.py:81-92 | a password touching all four classes has entropy exactly 7·n² eighths |
| Entropy.CalculateEntropy | main.py:81-92 | the loop over the four classes and the formula compute exactly `Entropy.EntropyEighths` |
| Entropy.Rating | main.py:98-107 | the rating is Very Weak below 28 bits, Weak below 36, Moderate below 60, Strong below 128 and Very Strong from 128, with strict comparisons |
| Entropy.RatingMonotone | main.py:98-107 | a larger entropy never gives a lower band |
| Entropy.Strength.Label | main.py:98-107 | each band is reported as the string estimate_strength returns for it: "Very Weak", "Weak", "Moderate", "Strong" and "Very Strong" from the lowest band (`Level` 0) to the highest (`Level` 4) |
| Entropy.LabelsDistinct | main.py:98-107 | the five returned labels are distinct, so a label names exactly one band |
| Entropy.EstimateStrength | main.py:94-107 | `estimate_strength` never rates a password above the band of 7·n² eighths, the entropy of a password of the same length touching all four classes |
| Entropy.ShortIsVeryWeak | main.py:81-107 | a password of at most 5 characters is always rated Very Weak |
| Entropy.FullPoolStrength | main.py:81-107 | a 12-character password touching every class is Strong, and one of 13 or more is Very Strong |
| History.Load | main.py:109-118 | a missing or corrupt file reads as the empty history, and a saved list reads as itself |
| History.NewEntry | main.py:133-139 | the appended record carries the password, the description, the timestamp, and the password's entropy and strength |
| History.Truncate | main.py:141-143 | the kept history has min(n, 10) entries and is a suffix of the list |
| History.Appended | main.py:133-143 | the append and truncation leave one entry more than the loaded list, up to 10 |
| History.AppendedNewest | main.py:133-143 | after an append, the history is the newest min(n + 1, 10) entries of the list with the new record at its end, and the new record is last |
| History.AfterAdd | main.py:125-146 | with a non-empty password the file afterwards holds a saved list of min(n + 1, 10) entries, n being the number loaded |
| History.AddBounded | main.py:125-146 | with a non-empty password, the file afterwards holds at most 10 entries, however long the loaded list was, and the new record is last |
| History.AddEmptyPassword | main.py:127-128 | an empty password leaves the file untouched |
| History.AddToUnreadable | main.py:109-146 | adding to a missing or corrupt file writes a history holding just the new record |
| History.HistoryStore.AddToHistory | main.py:125-146 | the in-place load, append, truncate and save leave the file equal to `History.AfterAdd` of the old file |
| History.TruncateTwice | main.py:141-143 | truncating before appending more and then again gives the same result as one truncation at the end |
| History.AppendAllKeepsNewest | main.py:125-146 | after any number of appends to a history within the bound, the history is the newest min(n + k, 10) records of all of them, in order |
| History.AppendAllFromAny | main.py:114-143 | one or more appends to a loaded list of any length, even one over the bound, give the newest min(n + k, 10) records of all of them, in order |
| History.AppendManyForgetsOld | main.py:125-146 | after 10 or more appends, the history is exactly the last 10 records appended, however long the loaded list was |
| History.AddAll | main.py:125-146 | calling add_to_history once per request always leaves a saved history when the last password is non-empty |
| History.AddAllEmptyKeepsFile | main.py:125-128 | a run of add_to_history calls whose passwords are all empty leaves the file as it was |
| History.AddAllIsAppendAll | main.py:109-146 | saving one or more non-empty passwords in a row, from any file (missing, corrupt, or a list of any length), leaves the loaded list with their records appended one by one |
| History.AddManyKeepsLast | main.py:109-146 | after 10 + k saves of non-empty passwords, the file holds exactly the records of the last 10, in the order they were saved, whatever it held before |
| History.Stars | main.py:162 | `"*" * count` has max(count, 0) characters, all stars |
| History.Mask | main.py:162 | the masked password has the password's length, keeps its first four characters and shows a star at every later position |
| History.MaskShort | main.py:162 | a password of at most four characters is shown unchanged |
| History.MaskHidesTail | main.py:162 | two passwords of the same length with the same first four characters are masked alike, and masking a masked password changes nothing |

## Left out

- Argument parsing, `main()`, the `--count` loop and all printed output (`main.py:168-220`): plumbing that only calls the modelled operations.
- The error message printed when the pool is empty (`main.py:52`): output only. The model keeps the `None` result.
- File I/O and JSON: `os.path.exists`, `open`, `json.load` and `json.dump` (`main.py:109-123`). The file's content is the value `History.StoredHistory`: absent, corrupt, or a saved list of entries. A JSON document that parses but is not a list of entries is not modelled.
- The clock: `datetime.now().strftime(...)` (`main.py:136`) is replaced by an opaque `createdAt` string parameter.
- The quality of the random source: uniformity and independence cannot be stated here. Each random call is an arbitrary natural number reduced modulo the size of what it draws from.
- The table layout of `view_history`: column padding, the 20-character description cut and the loop over entries (`main.py:148-166`). Only the masking expression is modelled.
- Floating point: the `/ 8` of `main.py:92` is kept as an exact count of eighths. The float result is exact as long as the numerator stays below 2^53, which holds for passwords shorter than about 35 million characters.
