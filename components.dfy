/** One ID component and its successor: a digit run counts up in decimal,
    a letter run advances its last character through a fixed table. */
module Components {
  import opened IdRuns

  /** The successor table for the last letter of a letter run. */
  const LetterSuccessors: map<char, string> := map[
    'a' := "b", 'b' := "c", 'c' := "d", 'd' := "e", 'e' := "f", 'f' := "g",
    'g' := "h", 'h' := "i", 'i' := "j", 'j' := "k", 'k' := "l", 'l' := "m",
    'm' := "n", 'n' := "o", 'o' := "p", 'p' := "q", 'q' := "r", 'r' := "s",
    's' := "t", 't' := "u", 'u' := "v", 'v' := "w", 'w' := "x", 'x' := "y",
    'y' := "z", 'z' := "aa"
  ]

  /** The table covers exactly the lowercase letters. */
  lemma LetterSuccessorsDomain(c: char)
    ensures c in LetterSuccessors <==> IsLetter(c)
  {
  }

  /** Each letter but `z` steps to the next one, and `z` steps to `aa`. */
  lemma LetterSuccessorsTable(c: char)
    requires IsLetter(c)
    ensures c in LetterSuccessors
    ensures c != 'z' ==> LetterSuccessors[c] == [(c as int + 1) as char]
    ensures c == 'z' ==> LetterSuccessors[c] == "aa"
    ensures LetterSuccessors[c] == LetterSuccessor(c)
  {
    LetterSuccessorsDomain(c);
  }

  /** The table entry of a letter, by formula: the next letter, and `aa`
      after `z`. */
  function LetterSuccessor(c: char): string
    requires IsLetter(c)
  {
    if c == 'z' then "aa" else [(c as int + 1) as char]
  }

  /** Position of a letter run in the sequence a, b, ..., z, aa, ..., az, aaa, ...
      reached by repeated successors: its length and its last letter. */
  function LetterRank(s: string): nat
    requires |s| > 0 && IsLetter(s[|s| - 1])
  {
    26 * (|s| - 1) + (s[|s| - 1] as int - 'a' as int)
  }

  /** incrementStringIDComponent: keep every character but the last and
      replace the last by its table entry (`IncrementLettersLooksUp`). */
  function IncrementLetters(s: string): (r: string)
    requires |s| > 0 && IsLetter(s[|s| - 1])
    ensures |r| >= |s| && r[..|s| - 1] == s[..|s| - 1]
    ensures s[|s| - 1] != 'z' ==> |r| == |s| && r[|s| - 1] == (s[|s| - 1] as int + 1) as char
    ensures s[|s| - 1] == 'z' ==> |r| == |s| + 1 && r[|s| - 1..] == "aa"
    ensures AllLetters(s) ==> AllLetters(r)
    ensures IsLetter(r[|r| - 1]) && LetterRank(r) == LetterRank(s) + 1
  {
    s[..|s| - 1] + LetterSuccessor(s[|s| - 1])
  }

  /** The successor of a letter run is what precedes its last letter
      followed by the table entry of that letter. */
  lemma IncrementLettersLooksUp(s: string)
    requires |s| > 0 && IsLetter(s[|s| - 1])
    ensures s[|s| - 1] in LetterSuccessors
    ensures IncrementLetters(s) == s[..|s| - 1] + LetterSuccessors[s[|s| - 1]]
  {
    LetterSuccessorsTable(s[|s| - 1]);
  }

  function DigitValue(c: char): nat
    requires IsDigit(c)
  {
    c as int - '0' as int
  }

  /** The value of a decimal digit string, as `parseInt` reads it. */
  function DecimalValue(s: string): nat
    requires AllDigits(s)
  {
    if s == [] then 0 else DecimalValue(s[..|s| - 1]) * 10 + DigitValue(s[|s| - 1])
  }

  function DigitChar(d: nat): (c: char)
    requires d < 10
    ensures IsDigit(c) && DigitValue(c) == d
  {
    ('0' as int + d) as char
  }

  /** The decimal text of a natural number, as `toString` writes it: no
      leading zeros, and it reads back as the same number. */
  function Decimal(n: nat): (r: string)
    ensures |r| > 0 && AllDigits(r) && DecimalValue(r) == n
    ensures r[0] == '0' ==> n == 0 && r == "0"
    decreases n
  {
    if n < 10 then [DigitChar(n)]
    else
      var front := Decimal(n / 10);
      var r := front + [DigitChar(n % 10)];
      assert r[..|r| - 1] == front;
      r
  }

  /** A digit string without leading zeros is the decimal text of its value. */
  lemma {:induction false} DecimalOfValue(s: string)
    requires |s| > 0 && AllDigits(s) && (s[0] == '0' ==> s == "0")
    ensures Decimal(DecimalValue(s)) == s
    decreases |s|
  {
    if |s| > 1 {
      var front := s[..|s| - 1];
      LeadingDigitValue(front);
      DecimalOfValue(front);
      var n := DecimalValue(s);
      DivModTen(DecimalValue(front), DigitValue(s[|s| - 1]));
      assert n >= 10;
      assert s == front + [s[|s| - 1]];
    }
  }

  lemma DivModTen(a: nat, d: nat)
    requires d < 10
    ensures (a * 10 + d) / 10 == a && (a * 10 + d) % 10 == d
  {
  }

  lemma {:induction false} LeadingDigitValue(s: string)
    requires |s| > 0 && AllDigits(s) && s[0] != '0'
    ensures DecimalValue(s) >= 1
    decreases |s|
  {
    if |s| > 1 {
      LeadingDigitValue(s[..|s| - 1]);
    }
  }

  /** incrementNumberIDComponent: parse, add one, print back. */
  function IncrementDigits(s: string): (r: string)
    requires |s| > 0 && AllDigits(s)
    ensures |r| > 0 && AllDigits(r) && r[0] != '0'
    ensures DecimalValue(r) == DecimalValue(s) + 1
  {
    Decimal(DecimalValue(s) + 1)
  }

  /** The spacing of IEEE doubles around a natural number: 1 below 2^53,
      doubling with each binade above. */
  function Ulp(n: nat): (q: nat)
    ensures q >= 1
    ensures n < 0x20_0000_0000_0000 ==> q == 1
  {
    if n < 0x20_0000_0000_0000 then 1 else 2 * Ulp(n / 2)
  }

  /** The double nearest to `n`, ties to even, which is what `parseInt` and
      an addition in doubles produce for an integer. */
  function RoundToDouble(n: nat): (r: nat)
    ensures n < 0x20_0000_0000_0000 ==> r == n
  {
    var q := Ulp(n);
    RoundDownBounds(n, q);
    var down := n - n % q;
    if 2 * (n % q) < q then down
    else if 2 * (n % q) > q then down + q
    else if (down / q) % 2 == 0 then down
    else down + q
  }

  lemma RoundDownBounds(n: nat, q: nat)
    requires q >= 1
    ensures 0 <= n % q < q && n % q <= n
    ensures q == 1 ==> n % q == 0
  {
  }

  /** incrementNumberIDComponent as the source computes it: `parseInt` rounds
      the run's value to a double, `+ 1` rounds again, and `toString` prints
      the result. Below 10^16 every such double is an integer that `toString`
      prints in full, which is `Decimal`. Below 2^53 nothing is rounded and
      this is `IncrementDigits`. */
  function IncrementDigitsAsWritten(s: string): (r: string)
    requires |s| > 0 && AllDigits(s) && DecimalValue(s) < 10_000_000_000_000_000
    ensures |r| > 0 && AllDigits(r)
    ensures DecimalValue(s) < 0x20_0000_0000_0000 ==> r == IncrementDigits(s)
  {
    Decimal(RoundToDouble(RoundToDouble(DecimalValue(s)) + 1))
  }

  /** In doubles, 2^53 + 1 rounds back to 2^53 (a tie, broken towards the
      even significand). */
  lemma DoubleIncrementAt2p53()
    ensures RoundToDouble(RoundToDouble(0x20_0000_0000_0000) + 1) == 0x20_0000_0000_0000
  {
    var n := 0x20_0000_0000_0000;
    assert Ulp(n) == 2 by {
      assert Ulp(n / 2) == 1;
    }
    assert Ulp(n + 1) == 2 by {
      assert (n + 1) / 2 == 0x10_0000_0000_0000;
    }
    assert n % 2 == 0 && (n + 1) % 2 == 1 && (n / 2) % 2 == 0;
    assert RoundToDouble(n) == n;
  }

  /** At 2^53 the source's increment is not an increment: 2^53 + 1 rounds
      back to 2^53, so the run `9007199254740992` steps to itself, while the
      exact successor `IncrementDigits` moves on. */
  lemma IncrementDigitsAsWrittenRepeats(s: string)
    requires |s| > 0 && AllDigits(s) && s[0] != '0'
    requires DecimalValue(s) == 0x20_0000_0000_0000
    ensures IncrementDigitsAsWritten(s) == s
    ensures IncrementDigits(s) != s
  {
    DoubleIncrementAt2p53();
    DecimalOfValue(s);
  }

  /** Just above 2^53 the source's increment goes down: 2^53 + 1 is read as
      2^53, and adding one rounds back to 2^53, so `9007199254740993` steps
      to `9007199254740992`, while the exact successor goes up. */
  lemma IncrementDigitsAsWrittenGoesDown(s: string)
    requires |s| > 0 && AllDigits(s)
    requires DecimalValue(s) == 0x20_0000_0000_0001
    ensures DecimalValue(IncrementDigitsAsWritten(s)) == 0x20_0000_0000_0000
    ensures DecimalValue(IncrementDigits(s)) == 0x20_0000_0000_0002
  {
    DoubleReadAt2p53Plus1();
    DoubleIncrementAt2p53();
  }

  /** In doubles, 2^53 + 1 is read as 2^53. */
  lemma DoubleReadAt2p53Plus1()
    ensures RoundToDouble(0x20_0000_0000_0001) == 0x20_0000_0000_0000
  {
    var n := 0x20_0000_0000_0000;
    assert Ulp(n + 1) == 2 by {
      assert (n + 1) / 2 == 0x10_0000_0000_0000;
    }
    assert (n + 1) % 2 == 1 && (n / 2) % 2 == 0;
  }

  /** isNumber: the `^\d+$` test. On a run it is decided by the run's last
      character, which is how the kind of a last run is told apart. */
  predicate IsNumber(s: string)
    ensures IsNumber(s) ==> IsRun(s)
    ensures IsRun(s) ==> (IsNumber(s) <==> IsDigit(s[|s| - 1]))
  {
    |s| > 0 && AllDigits(s)
  }

  /** The rank of a component among the successors of its kind: the value of
      a digit run, or the letter rank of a letter run. */
  function RunRank(s: string): nat
    requires IsRun(s)
  {
    if IsNumber(s) then DecimalValue(s) else LetterRank(s)
  }

  /** incrementIDComponent: the successor of a run is a run of the same kind
      one rank higher. */
  function IncrementComponent(s: string): (r: string)
    requires IsRun(s)
    ensures IsRun(r) && AllDigits(r) == AllDigits(s)
    ensures RunRank(r) == RunRank(s) + 1
  {
    if IsNumber(s) then IncrementDigits(s)
    else
      assert AllLetters(s) && IsLetter(s[|s| - 1]);
      var r := IncrementLetters(s);
      assert !AllDigits(r) by {
        assert !IsDigit(r[|r| - 1]);
      }
      r
  }

  /** Worked example: `9` steps to `10`. */
  lemma IncrementComponentExampleCarry()
    ensures IncrementComponent("9") == "10"
  {
    assert DecimalValue("9") == 9;
    assert Decimal(10) == "10";
  }

  /** Worked example: leading zeros are not kept, `09` steps to `10`. */
  lemma IncrementComponentExampleLeadingZero()
    ensures IncrementComponent("09") == "10"
  {
    assert DecimalValue("09") == 9 by {
      assert "09"[..1] == "0";
    }
    assert Decimal(10) == "10";
  }

  /** Worked example: `z` steps to `aa`. */
  lemma IncrementComponentExampleWrap()
    ensures IncrementComponent("z") == "aa"
  {
    assert !AllDigits("z") by { assert !IsDigit("z"[0]); }
  }

  /** Worked example: only the last letter moves, `az` steps to `aaa`. */
  lemma IncrementComponentExampleKeepsPrefix()
    ensures IncrementComponent("az") == "aaa"
  {
    assert !AllDigits("az") by { assert !IsDigit("az"[1]); }
    assert "az"[..1] + "aa" == "aaa";
  }
}
