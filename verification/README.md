# Lotto number generator — Dafny model

A model of the logic of a small lottery-suggestion page (`app.py`): it
proposes combinations of six distinct numbers from 1..45 under optional
rules, around numbers the user insists on ("fixed") and away from numbers
the user rejects ("excluded").

- `lotto.dfy`, module `Lotto`: the constants of the game, six numbers from
  1..45, defined once for the other modules.
- `seqs.dfy`, module `Seqs`: Python's `sorted` on integer lists (a functional
  insertion sort), the list comprehension that drops members, `set(...)` as a
  duplicate-free list, and the facts that a sorted list is determined by its
  multiset and a strictly increasing list by its set.
- `rules.dfy`, module `Rules`: `is_valid`, the odd/even 3:3 rule and the
  counter scan that bans three consecutive integers, together with reference
  definitions of both rules and the lemmas that the code decides them.
- `generator.dfy`, module `Generator`: `generate_lotto_numbers` as a method
  with the same loop, guards and attempt budget of 10000; the call to
  `random.sample` is a parameter `sample` constrained only to return `k`
  distinct members of the pool it is given.
- `user_input.dfy`, module `UserInput`: `parse_numbers` (defined inside
  `main` in the source, lifted out here), its building blocks (removing
  spaces, splitting on commas, digit tokens, decimal values), the round trip
  from the suggested input format "7, 13", and the set of numbers that are
  both fixed and excluded.

Behaviour that follows the code rather than the intent the page describes:

- Fixed and excluded numbers are lists, not sets: the guard `len(fixed) > 6`
  counts repeats, and a number both fixed and excluded still appears in every
  result (fixed numbers are added without looking at the exclusions). The
  page only warns about such overlap.
- Results are compared as sorted lists; the model proves this is the same as
  comparing them as multisets, and also as sets for any fixed list, repeats
  included: every result is `sorted(fixed + part)` for a draw `part` that
  repeats nothing and avoids the fixed numbers, so two results holding the
  same numbers are the same result. A repeated fixed number stays repeated in
  every result.
- The guard on more than six fixed numbers sits inside the loop, after one
  unit of the budget is spent; the result (empty) is the same as returning
  before the loop.
- A `count` of zero or less gives an empty result.
- `is_valid` on a list with repeats can let three consecutive values through
  (`[1, 2, 2, 3]` resets the counter at the repeated 2); the set-level
  reading of the consecutive rule is proved for duplicate-free input, which
  is all the generator produces from duplicate-free fixed numbers.

## Model

| member | source | states |
|---|---|---|
| `Seqs.Sort` | app.py:8 | `sorted` returns a non-decreasing permutation of its input; a duplicate-free input comes out strictly increasing |
| `Seqs.SortedUnique` | app.py:74-77 | two sorted lists that are permutations of one another are equal, so comparing sorted candidates compares the drawn numbers as multisets |
| `Seqs.StrictUnique` | app.py:134 | a strictly increasing list is determined by its set of values, so `sorted(set(nums))` does not depend on the set's iteration order |
| `Seqs.Without` | app.py:56 | the filtering comprehension keeps exactly the members not in the dropped list, and keeps a duplicate-free list duplicate-free |
| `Seqs.Dedup` | app.py:134 | `set(nums)` as a list holds exactly the values of `nums`, each once |
| `Rules.OddCount` | app.py:12 | the odd count is at most the length, equals the length exactly when every member is odd, and is zero exactly when every member is even |
| `Rules.OddEvenBalanced` | app.py:12-14 | since `even` is computed as six minus `odd`, the rule holds exactly when three members are odd, which needs at least three members |
| `Rules.RunScan` | app.py:19-26 | the loop resumed at position `i` passes when no later member is one more than its predecessor, and always passes when resumed at the last position or later with a counter of at most 1 |
| `Rules.PassesRunScan` | app.py:18-26 | lists of fewer than three members always pass, and so does any list with no member one more than its predecessor |
| `Rules.IsValid` | app.py:7-28 | with both rules switched off every list passes (what it decides with the rules on is `Rules.IsValidMeaning`) |
| `Rules.RunScanMeaning` | app.py:19-26 | resumed at position `i` with the counter the loop carries there, the scan passes exactly when no three adjacent positions ending at or after `i` hold consecutive integers |
| `Rules.PassesRunScanMeaning` | app.py:18-26 | the consecutive-rule loop passes a list exactly when no three adjacent positions hold `x`, `x + 1`, `x + 2` |
| `Rules.AdjacentRunIffRun` | app.py:18-26 | for a strictly increasing list, three adjacent consecutive values occur exactly when some `x`, `x + 1`, `x + 2` all occur |
| `Rules.OddCountPermutation` | app.py:8-12 | the odd count does not depend on order, so counting on the sorted copy counts the input |
| `Rules.OddCountOfDistinct` | app.py:12 | on a duplicate-free list the odd count is the number of odd values |
| `Rules.IsValidMeaning` | app.py:7-28 | `is_valid` holds exactly when (rule off or exactly 3 odd members) and (rule off or the sorted list has no three adjacent consecutive integers) |
| `Rules.IsValidOnDistinct` | app.py:7-28 | for duplicate-free input, `is_valid` holds exactly when (rule off or exactly 3 odd values) and (rule off or no `x` with `x`, `x + 1`, `x + 2` all present) |
| `Rules.RepeatHidesRun` | app.py:18-26 | `[1, 2, 2, 3]` passes the consecutive rule although 1, 2 and 3 all occur: the repeated 2 resets the counter |
| `Generator.Range` | app.py:56 | `range(lo, hi)` lists `lo`, `lo + 1`, ... up to `hi - 1` |
| `Generator.Available` | app.py:56 | `available` holds exactly the numbers in 1..45 that are not excluded, ascending |
| `Generator.CandidatesPool` | app.py:68 | `candidates_pool` holds exactly the available numbers that are not fixed, ascending when `available` is |
| `Generator.SamplesWithoutReplacement` | app.py:73 | what `random.sample(pool, k)` is relied on for: `k` distinct members of a duplicate-free pool with at least `k` members; drawing none gives the empty list |
| `Generator.FirstMembersSample` | app.py:73 | taking the first `k` members of the pool meets that requirement, so it can be met |
| `Generator.CandidateAdmissible` | app.py:63-76 | a candidate `sorted(fixed + sample)` that `is_valid` accepts has six members, is sorted, holds every fixed number as often as it is fixed, holds only fixed or non-excluded numbers in 1..45, is built from one draw, and is six distinct numbers in 1..45 when the fixed numbers are well formed |
| `Generator.KeepCandidate` | app.py:76-78 | appending a new candidate that `is_valid` accepts and that is not yet among the results keeps every result admissible and no two results equal |
| `Generator.DistinctResults` | app.py:77-78 | admissible results that differ as lists also differ as multisets and as sets |
| `Generator.SameSetsSameDraw` | app.py:68-77 | two candidates built from draws on the same fixed and excluded lists that hold the same set of numbers are the same list, for any fixed list |
| `Generator.Generate` | app.py:31-80 | at most `TrialsLimit` iterations; at most `count` results, none when `count` is not positive, when more than six numbers are fixed, or when the pool is too small; fewer than `count` only if the budget ran out or too many were fixed; every result admissible; no two results equal as multisets or as sets |
| `Generator.AdmissibleMeaning` | app.py:74-77 | under well-formed fixed numbers every result has three odd values when the odd/even rule is on and no `x`, `x + 1`, `x + 2` together when the consecutive rule is on |
| `Generator.SixFixedDetermineResult` | app.py:63-78 | with six well-formed fixed numbers the generator returns at most one combination, the sorted fixed list, and only if `is_valid` accepts it |
| `UserInput.RemoveSpaces` | app.py:129 | `replace(" ", "")` leaves no space and keeps every other character |
| `UserInput.RemoveSpacesAppend` | app.py:129 | `replace(" ", "")` works piece by piece, so the kept characters stay in their order |
| `UserInput.RemoveSpacesNoSpace` | app.py:129 | text without spaces is left unchanged by `replace(" ", "")` |
| `UserInput.Split` | app.py:129 | `split(",")` yields at least one piece and no piece contains a comma |
| `UserInput.SplitPiecesFromText` | app.py:129 | every character of a piece of `split(",")` comes from the text |
| `UserInput.JoinSplit` | app.py:129 | joining the pieces of a split with the separator gives back the text |
| `UserInput.SplitJoin` | app.py:129 | splitting a join of comma-free pieces gives back the pieces |
| `UserInput.Tokens` | app.py:129 | the tokens of `text.replace(" ", "").split(",")` are at least one, hold no comma and no space, and joined with commas give back the text without its spaces |
| `UserInput.IsDigits` | app.py:130 | `isdigit` on ASCII text rejects the empty token, and an accepted token holds no space or comma |
| `UserInput.DigitsValue` | app.py:131 | `int` of an all-digit token is a natural number, and of a one-digit token that digit's value |
| `UserInput.DigitsValueLeadingZero` | app.py:131 | a leading zero does not change the value `int` gives, as in `int("07") == 7` |
| `UserInput.Decimal` | app.py:130-131 | the decimal spelling of a number is an all-digit token that `int` maps back to the number |
| `UserInput.CollectNumbers` | app.py:129-133 | the loop keeps a number exactly when some token is all digits, spells it, and it lies in 1..45 |
| `UserInput.ParseNumbers` | app.py:127-134 | `parse_numbers` returns a strictly increasing list of numbers in 1..45, each spelled by some comma-separated, space-stripped, all-digit token and containing every such number; empty text gives the empty list |
| `UserInput.ParseFormatRoundTrip` | app.py:118-136 | typing an ascending list of distinct numbers in 1..45 as "7, 13" and parsing it gives the list back |
| `UserInput.Conflicts` | app.py:140 | the conflict list holds exactly the numbers that are both fixed and excluded, ascending |

## Left out

- Everything in `main` except `parse_numbers` and the overlap computation
  (app.py:86-126, 136-139, 143-190): page layout, sliders, checkboxes, text inputs,
  messages and the HTML rendering of results belong to the Streamlit page.
- The overlap warning message itself (app.py:141-142): only the set it shows
  is modelled (`UserInput.Conflicts`); it does not stop generation.
- The distribution of `random.sample`: the sampler is any function of the
  attempt number, the pool and the size that returns that many distinct pool
  members; no uniformity or independence is claimed.
- `str.isdigit` accepting non-ASCII digit characters: tokens are ASCII digit
  strings only. On some such tokens the source fails: `isdigit` accepts
  superscripts such as "²" but `int` raises `ValueError` on them, so
  `parse_numbers` (and the page) stops with an error there; the model has no
  such failure.
- The `remaining_count < 0` branch (app.py:64-65): it cannot be reached after
  the guard on more than six fixed numbers; the model declares the count a
  natural number, so the verifier checks that instead of modelling a no-op.
- The default arguments (app.py:32-37, 46-47): callers pass every argument,
  and a missing list is the empty list.
- The number of attempts used is reported as a ghost out-parameter
  `trials`; the source does not return it.
