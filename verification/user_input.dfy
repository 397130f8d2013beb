/** The input helpers of the page (app.py:127-142): `parse_numbers`, which
    turns free text such as "7, 13" into a sorted list of distinct numbers in
    1..45, and the set of numbers that are both fixed and excluded. */
module UserInput {
  import opened Seqs
  import opened Lotto

  const Comma: char := ','
  const Space: char := ' '

  /** `text.replace(" ", "")`: drops every space and keeps every other
      character; that the order is kept too is `RemoveSpacesAppend`. */
  function RemoveSpaces(text: string): (r: string)
    ensures Space !in r
    ensures forall c :: c != Space ==> (c in r <==> c in text)
    ensures |r| <= |text|
  {
    if |text| == 0 then ""
    else (if text[0] == Space then "" else [text[0]]) + RemoveSpaces(text[1..])
  }

  /** Python's `s.split(sep)` with an explicit separator: the pieces between
      separators, empty pieces included, so there is always at least one. */
  function Split(s: string, sep: char): (parts: seq<string>)
    ensures |parts| >= 1
    ensures forall i :: 0 <= i < |parts| ==> sep !in parts[i]
    decreases |s|
  {
    if |s| == 0 then [""]
    else if s[0] == sep then [""] + Split(s[1..], sep)
    else
      var rest := Split(s[1..], sep);
      [[s[0]] + rest[0]] + rest[1..]
  }

  /** Every character of a piece of `Split(s, sep)` comes from `s`. */
  lemma {:induction false} SplitPiecesFromText(s: string, sep: char, c: char)
    ensures forall i :: 0 <= i < |Split(s, sep)| ==> c in Split(s, sep)[i] ==> c in s
    decreases |s|
  {
    if |s| > 0 {
      SplitPiecesFromText(s[1..], sep, c);
      assert c in s[1..] ==> c in s;
    }
  }

  /** `sep.join(parts)`, the inverse of `Split`. */
  function Join(parts: seq<string>, sep: char): string
    decreases |parts|
  {
    if |parts| == 0 then ""
    else if |parts| == 1 then parts[0]
    else parts[0] + [sep] + Join(parts[1..], sep)
  }

  /** `str.isdigit` on ASCII text: non-empty and made of decimal digits. */
  function IsDigits(token: string): (digits: bool)
    ensures digits ==> |token| > 0
    ensures digits ==> Space !in token && Comma !in token
  {
    |token| > 0 && forall i :: 0 <= i < |token| ==> '0' <= token[i] <= '9'
  }

  function DigitValue(c: char): int {
    c as int - '0' as int
  }

  /** `int(token)` for a digit string: its decimal value, leading zeros
      allowed (`DigitsValueLeadingZero`). */
  function DigitsValue(token: string): (value: int)
    ensures IsDigits(token) ==> value >= 0
    ensures IsDigits(token) && |token| == 1 ==> value == DigitValue(token[0])
    decreases |token|
  {
    if |token| == 0 then 0
    else DigitsValue(token[..|token| - 1]) * 10 + DigitValue(token[|token| - 1])
  }

  /** `str(n)` for a natural number: its shortest decimal spelling. */
  function Decimal(n: nat): (r: string)
    ensures IsDigits(r)
    ensures DigitsValue(r) == n
    ensures Space !in r && Comma !in r
  {
    if n < 10 then ['0' + n as char]
    else
      var prefix := Decimal(n / 10);
      var r := prefix + ['0' + (n % 10) as char];
      assert r[..|r| - 1] == prefix;
      r
  }

  /** Token `token` is kept by `parse_numbers` and contributes the number `n`. */
  predicate Contributes(token: string, n: int) {
    IsDigits(token) && DigitsValue(token) == n && InRange(n)
  }

  /** The loop of `parse_numbers`: the numbers of the kept tokens, in input
      order, repeats included. */
  function CollectNumbers(tokens: seq<string>): (nums: seq<int>)
    ensures forall n :: n in nums <==> exists t :: t in tokens && Contributes(t, n)
  {
    if |tokens| == 0 then []
    else
      var t := tokens[0];
      var rest := CollectNumbers(tokens[1..]);
      assert forall u :: u in tokens <==> u == t || u in tokens[1..];
      if IsDigits(t) && InRange(DigitsValue(t)) then
        assert Contributes(t, DigitsValue(t));
        [DigitsValue(t)] + rest
      else rest
  }

  /** `text.replace(" ", "").split(",")`: the comma-separated tokens of the
      input, spaces removed; joined with commas they give back the text
      without its spaces. */
  function Tokens(text: string): (tokens: seq<string>)
    ensures |tokens| >= 1
    ensures forall i :: 0 <= i < |tokens| ==> Comma !in tokens[i] && Space !in tokens[i]
    ensures Join(tokens, Comma) == RemoveSpaces(text)
  {
    var stripped := RemoveSpaces(text);
    JoinSplit(stripped, Comma);
    SplitPiecesFromText(stripped, Comma, Space);
    Split(stripped, Comma)
  }

  /** A leading zero does not change the value: `int("07") == 7`. */
  lemma {:induction false} DigitsValueLeadingZero(token: string)
    ensures DigitsValue(['0'] + token) == DigitsValue(token)
    decreases |token|
  {
    if |token| > 0 {
      var longer := ['0'] + token;
      assert longer[..|longer| - 1] == ['0'] + token[..|token| - 1];
      DigitsValueLeadingZero(token[..|token| - 1]);
    }
  }

  /** `parse_numbers`: the distinct numbers in 1..45 spelled by the
      comma-separated all-digit tokens of `text`, in ascending order. Every
      number comes from some token and every accepted token's number is
      there; empty text gives the empty list. */
  function ParseNumbers(text: string): (nums: seq<int>)
    ensures StrictlyIncreasing(nums)
    ensures forall n :: n in nums ==> InRange(n)
    ensures forall n :: n in nums <==> exists t :: t in Tokens(text) && Contributes(t, n)
    ensures text == "" ==> nums == []
  {
    var collected := CollectNumbers(Tokens(text));
    var unique := Dedup(collected);
    var r := Sort(unique);
    assert forall n :: n in r <==> n in unique by {
      forall n
        ensures n in r <==> n in unique
      {
        assert n in r <==> n in multiset(r);
        assert n in unique <==> n in multiset(unique);
      }
    }
    assert text == "" ==> collected == [] by {
      if text == "" {
        assert RemoveSpaces(text) == "";
        assert Tokens(text) == [""];
        assert [""][1..] == [];
        assert CollectNumbers([""]) == CollectNumbers([]);
      }
    }
    r
  }

  /** The numbers both fixed and excluded, `set(fixed) & set(excluded)`,
      listed in ascending order as the page's warning shows them. */
  function Conflicts(fixed: seq<int>, excluded: seq<int>): (common: seq<int>)
    ensures StrictlyIncreasing(common)
    ensures forall n :: n in common <==> n in fixed && n in excluded
  {
    var both := Without(fixed, Without(fixed, excluded));
    var unique := Dedup(both);
    var r := Sort(unique);
    assert forall n :: n in r <==> n in unique by {
      forall n
        ensures n in r <==> n in unique
      {
        assert n in r <==> n in multiset(r);
        assert n in unique <==> n in multiset(unique);
      }
    }
    r
  }

  // ---------------------------------------------------------------------
  // Round trips.

  /** Joining the pieces of a split gives back the text. */
  lemma {:induction false} JoinSplit(s: string, sep: char)
    ensures Join(Split(s, sep), sep) == s
    decreases |s|
  {
    if |s| > 0 {
      JoinSplit(s[1..], sep);
      var rest := Split(s[1..], sep);
      if s[0] == sep {
        assert s == [sep] + s[1..];
      } else if |rest| == 1 {
        assert s == [s[0]] + s[1..];
      } else {
        assert Join(rest, sep) == rest[0] + [sep] + Join(rest[1..], sep);
        assert s == [s[0]] + s[1..];
      }
    }
  }

  /** Splitting a join of separator-free pieces gives back the pieces. */
  lemma {:induction false} SplitJoin(parts: seq<string>, sep: char)
    requires |parts| >= 1
    requires forall i :: 0 <= i < |parts| ==> sep !in parts[i]
    ensures Split(Join(parts, sep), sep) == parts
    decreases |parts|, |parts[0]|
  {
    if |parts[0]| > 0 {
      var head := parts[0];
      var shorter := [head[1..]] + parts[1..];
      assert head[0] != sep by { assert head[0] in head; }
      SplitJoin(shorter, sep);
      assert Join(parts, sep) == [head[0]] + Join(shorter, sep) by {
        if |parts| > 1 {
          assert head == [head[0]] + head[1..];
        } else {
          assert head == [head[0]] + head[1..];
        }
      }
      assert ([head[0]] + Join(shorter, sep))[1..] == Join(shorter, sep);
      assert [head[0]] + head[1..] == head;
    } else if |parts| > 1 {
      SplitJoin(parts[1..], sep);
      assert Join(parts, sep) == [sep] + Join(parts[1..], sep);
      assert ([sep] + Join(parts[1..], sep))[1..] == Join(parts[1..], sep);
      assert parts == [""] + parts[1..];
    }
  }

  /** The decimal spellings of `nums`, in order. */
  function Decimals(nums: seq<int>): (ds: seq<string>)
    requires forall i :: 0 <= i < |nums| ==> nums[i] >= 0
    ensures |ds| == |nums|
    ensures forall i :: 0 <= i < |ds| ==> ds[i] == Decimal(nums[i])
  {
    if |nums| == 0 then [] else [Decimal(nums[0])] + Decimals(nums[1..])
  }

  /** The way the page suggests typing numbers: "7, 13". */
  function Format(nums: seq<int>): string
    requires forall i :: 0 <= i < |nums| ==> nums[i] >= 0
  {
    if |nums| == 0 then ""
    else if |nums| == 1 then Decimal(nums[0])
    else Decimal(nums[0]) + [Comma, Space] + Format(nums[1..])
  }

  lemma {:induction false} RemoveSpacesAppend(a: string, b: string)
    ensures RemoveSpaces(a + b) == RemoveSpaces(a) + RemoveSpaces(b)
    decreases |a|
  {
    if |a| == 0 {
      assert a + b == b;
    } else {
      RemoveSpacesAppend(a[1..], b);
      var head := if a[0] == Space then "" else [a[0]];
      assert (a + b)[0] == a[0];
      assert (a + b)[1..] == a[1..] + b;
      assert RemoveSpaces(a + b) == head + RemoveSpaces(a[1..] + b);
      assert RemoveSpaces(a) == head + RemoveSpaces(a[1..]);
    }
  }

  lemma {:induction false} RemoveSpacesNoSpace(a: string)
    requires Space !in a
    ensures RemoveSpaces(a) == a
    decreases |a|
  {
    if |a| > 0 {
      RemoveSpacesNoSpace(a[1..]);
      assert a == [a[0]] + a[1..];
    }
  }

  /** Removing the spaces of the suggested format leaves the comma join of
      the decimal spellings. */
  lemma {:induction false} FormatWithoutSpaces(nums: seq<int>)
    requires |nums| >= 1
    requires forall i :: 0 <= i < |nums| ==> nums[i] >= 0
    ensures RemoveSpaces(Format(nums)) == Join(Decimals(nums), Comma)
    decreases |nums|
  {
    var d := Decimal(nums[0]);
    RemoveSpacesNoSpace(d);
    if |nums| > 1 {
      FormatWithoutSpaces(nums[1..]);
      RemoveSpacesAppend(d + [Comma, Space], Format(nums[1..]));
      RemoveSpacesAppend(d, [Comma, Space]);
      assert RemoveSpaces([Comma, Space]) == [Comma];
      assert Decimals(nums)[1..] == Decimals(nums[1..]);
    }
  }

  lemma {:induction false} CollectDecimals(nums: seq<int>)
    requires forall i :: 0 <= i < |nums| ==> LowestNumber <= nums[i] <= HighestNumber
    ensures CollectNumbers(Decimals(nums)) == nums
    decreases |nums|
  {
    if |nums| > 0 {
      CollectDecimals(nums[1..]);
      assert Decimals(nums)[1..] == Decimals(nums[1..]);
    }
  }

  /** The tokens of the suggested format are the decimal spellings. */
  lemma TokensOfFormat(nums: seq<int>)
    requires |nums| >= 1
    requires forall i :: 0 <= i < |nums| ==> nums[i] >= 0
    ensures Tokens(Format(nums)) == Decimals(nums)
  {
    FormatWithoutSpaces(nums);
    SplitJoin(Decimals(nums), Comma);
  }

  /** Typing an ascending list of distinct numbers in 1..45 the way the page
      suggests, "7, 13", and parsing it gives the list back. */
  lemma ParseFormatRoundTrip(nums: seq<int>)
    requires StrictlyIncreasing(nums)
    requires forall i :: 0 <= i < |nums| ==> LowestNumber <= nums[i] <= HighestNumber
    ensures ParseNumbers(Format(nums)) == nums
  {
    if |nums| > 0 {
      TokensOfFormat(nums);
      var parsed := ParseNumbers(Format(nums));
      assert forall n :: n in parsed <==> n in nums by {
        var ds := Decimals(nums);
        CollectDecimals(nums);
        assert CollectNumbers(Tokens(Format(nums))) == nums;
      }
      StrictUnique(parsed, nums);
    }
  }
}
