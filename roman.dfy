/** `Number.romanNumeral`: greedy encoding of an integer in [1, 3999] over the
    fixed table `Number.romanNumerals`. */
module RomanNumerals {
  import opened Errors

  const RangeError := "Functions.Number.romanNumeral: Number must be between 1 and 3999"

  /** `Number.romanNumerals`, key and value, in the order `for…in` visits the
      keys: they are not array indices, so they come in insertion order
      (section 10.1.11.1 of ECMA-262, OrdinaryOwnPropertyKeys). */
  const Table: seq<(string, nat)> := [
    ("M", 1000), ("CM", 900), ("D", 500), ("CD", 400), ("C", 100), ("XC", 90),
    ("L", 50), ("XL", 40), ("X", 10), ("IX", 9), ("V", 5), ("IV", 4), ("I", 1)]

  /** The key of table entry `t`. */
  function Key(t: nat): (k: string)
    requires t < |Table|
    ensures 1 <= |k| <= 2
  {
    Table[t].0
  }

  /** The value of table entry `t`. */
  function Value(t: nat): (v: nat)
    requires t < |Table|
    ensures 1 <= v
  {
    Table[t].1
  }

  /** Later table entries have smaller values. */
  lemma ValuesDecrease(s: nat, t: nat)
    requires s < t < |Table|
    ensures Value(s) > Value(t)
  {
  }

  /** Every token names a table entry. */
  predicate InTable(tokens: seq<nat>) {
    forall i :: 0 <= i < |tokens| ==> tokens[i] < |Table|
  }

  /** Tokens never go back up the table. */
  predicate Ordered(tokens: seq<nat>) {
    forall i, j :: 0 <= i < j < |tokens| ==> tokens[i] <= tokens[j]
  }

  /** The number that a sequence of tokens stands for. */
  function Sum(tokens: seq<nat>): nat
    requires InTable(tokens)
  {
    if tokens == [] then 0 else Value(tokens[0]) + Sum(tokens[1..])
  }

  /** The text of a sequence of tokens: their keys, one after the other. */
  function Render(tokens: seq<nat>): string
    requires InTable(tokens)
  {
    if tokens == [] then "" else Key(tokens[0]) + Render(tokens[1..])
  }

  /** The tokens the greedy loop emits for `n` from table entry `k` on: take
      entry `k` while it fits, then move to the next entry. */
  function Greedy(n: nat, k: nat): (tokens: seq<nat>)
    requires k <= |Table|
    decreases |Table| - k, n
    ensures InTable(tokens)
  {
    if k == |Table| then []
    else if n >= Value(k) then [k] + Greedy(n - Value(k), k)
    else Greedy(n, k + 1)
  }

  /** The greedy tokens never go back up the table, start at entry `k` or
      later, and add up to `n` as soon as the last entry, of value 1, is
      still ahead. */
  lemma {:induction false} GreedyOrdered(n: nat, k: nat)
    requires k <= |Table|
    decreases |Table| - k, n
    ensures Ordered(Greedy(n, k))
    ensures forall i :: 0 <= i < |Greedy(n, k)| ==> k <= Greedy(n, k)[i]
    ensures k < |Table| ==> Sum(Greedy(n, k)) == n
  {
    if k < |Table| {
      if n >= Value(k) {
        var rest := Greedy(n - Value(k), k);
        GreedyOrdered(n - Value(k), k);
        assert ([k] + rest)[1..] == rest;
      } else {
        GreedyOrdered(n, k + 1);
      }
    }
  }

  /** The numeral the greedy loop produces for `n`. */
  function Roman(n: nat): (numeral: string)
    ensures forall i :: 0 <= i < |numeral| ==> numeral[i] in "MDCLXVI"
  {
    RenderAlphabet(Greedy(n, 0));
    Render(Greedy(n, 0))
  }

  /** `Number.romanNumeral`: throws outside [1, 3999]; otherwise walks the
      table in order, appending each key and subtracting its value while
      the rest is at least that value. */
  method RomanNumeral(number: int) returns (r: Result<string>)
    ensures r.Ok? <==> 1 <= number <= 3999
    ensures r.Err? ==> r.message == RangeError
    ensures r.Ok? ==> r.value == Roman(number)
  {
    if number < 1 || number > 3999 {
      return Err(RangeError);
    }
    var roman := "";
    var rest: nat := number;
    var k := 0;
    while k < |Table|
      invariant 0 <= k <= |Table|
      invariant roman + Render(Greedy(rest, k)) == Roman(number)
    {
      while rest >= Table[k].1
        invariant roman + Render(Greedy(rest, k)) == Roman(number)
        decreases rest
      {
        ghost var tail := Greedy(rest - Value(k), k);
        assert Render([k] + tail) == Key(k) + Render(tail);
        roman := roman + Table[k].0;
        rest := rest - Table[k].1;
      }
      k := k + 1;
    }
    return Ok(roman);
  }

  /** The tokens of `Roman(n)` add up to `n`, come in non-increasing order
      of value and are all table keys. */
  lemma RomanTokens(n: nat)
    ensures InTable(Greedy(n, 0))
    ensures Sum(Greedy(n, 0)) == n
    ensures forall i, j :: 0 <= i < j < |Greedy(n, 0)| ==>
      Value(Greedy(n, 0)[i]) >= Value(Greedy(n, 0)[j])
  {
    var tokens := Greedy(n, 0);
    GreedyOrdered(n, 0);
    forall i, j | 0 <= i < j < |tokens|
      ensures Value(tokens[i]) >= Value(tokens[j])
    {
      if tokens[i] < tokens[j] {
        ValuesDecrease(tokens[i], tokens[j]);
      }
    }
  }

  /** Index of the first table entry, from `j` on, whose key begins `s`;
      `|Table|` when there is none. */
  function MatchFrom(s: string, j: nat): (t: nat)
    requires j <= |Table|
    decreases |Table| - j
    ensures j <= t <= |Table|
    ensures t < |Table| ==> Key(t) <= s
    ensures forall i :: j <= i < t ==> !(Key(i) <= s)
  {
    if j == |Table| then |Table|
    else if Key(j) <= s then j
    else MatchFrom(s, j + 1)
  }

  /** Splits a numeral into table keys, always taking the first key in
      table order that begins the rest of the text. */
  function Tokenize(s: string): (r: Option<seq<nat>>)
    decreases |s|
    ensures r.Some? ==> InTable(r.value)
  {
    if s == [] then Some([])
    else
      var t := MatchFrom(s, 0);
      if t == |Table| then None
      else
        match Tokenize(s[|Key(t)|..])
        case None => None
        case Some(rest) => Some([t] + rest)
  }

  /** Reads a numeral back as the sum of its keys' values. */
  function Decode(s: string): Option<nat> {
    match Tokenize(s)
    case None => None
    case Some(tokens) => Some(Sum(tokens))
  }

  /** A key is a prefix of `s` exactly when its one or two letters begin `s`. */
  lemma PrefixByLetters(i: nat, s: string)
    requires i < |Table|
    ensures Key(i) <= s <==>
      1 <= |s| && s[0] == Key(i)[0] && (|Key(i)| == 2 ==> 2 <= |s| && s[1] == Key(i)[1])
  {
    if 1 <= |s| && s[0] == Key(i)[0] && (|Key(i)| == 2 ==> 2 <= |s| && s[1] == Key(i)[1]) {
      assert s[..|Key(i)|] == Key(i);
    }
  }

  /** The table facts that make the first match the right one: a key `i`
      before `t` differs from `t` in its first letter, or in its second, or,
      when `t` has one letter, its second letter is not the first letter of
      any key `u` that may follow `t`. */
  lemma EarlierKeysDiffer(i: nat, t: nat, u: nat)
    requires i < t <= u < |Table|
    ensures Key(i)[0] != Key(t)[0]
      || (|Key(i)| == 2 && |Key(t)| == 2 && Key(i)[1] != Key(t)[1])
      || (|Key(i)| == 2 && |Key(t)| == 1 && Key(i)[1] != Key(u)[0])
  {
  }

  /** When the next token is not before `t` in the table, no earlier key
      begins the text `Key(t) + w`: a one-letter key is never followed by a
      letter that would make it the start of a two-letter key. */
  lemma {:induction false} OwnKeyMatches(t: nat, u: nat, w: string)
    requires t <= u < |Table|
    requires Key(u) <= w
    ensures MatchFrom(Key(t) + w, 0) == t
  {
    var s := Key(t) + w;
    assert Key(t) <= s;
    assert w[0] == Key(u)[0];
    assert s[0] == Key(t)[0];
    assert s[1] == if |Key(t)| == 2 then Key(t)[1] else Key(u)[0];
    forall i | 0 <= i < t
      ensures !(Key(i) <= s)
    {
      EarlierKeysDiffer(i, t, u);
      PrefixByLetters(i, s);
    }
    MatchSkips(s, 0, t);
  }

  /** The last key of a numeral matches itself. */
  lemma LastKeyMatches(t: nat)
    requires t < |Table|
    ensures MatchFrom(Key(t), 0) == t
  {
    var s := Key(t);
    forall i | 0 <= i < t
      ensures !(Key(i) <= s)
    {
      EarlierKeysDiffer(i, t, t);
      PrefixByLetters(i, s);
    }
    MatchSkips(s, 0, t);
  }

  /** Matching from `j` skips every entry before `t` that does not begin `s`. */
  lemma {:induction false} MatchSkips(s: string, j: nat, t: nat)
    requires j <= t < |Table| && Key(t) <= s
    requires forall i :: j <= i < t ==> !(Key(i) <= s)
    ensures MatchFrom(s, j) == t
    decreases t - j
  {
    if j < t {
      MatchSkips(s, j + 1, t);
    }
  }

  /** Tokenizing the text of an ordered token sequence gives the tokens back. */
  lemma {:induction false} TokenizeRender(tokens: seq<nat>)
    requires InTable(tokens) && Ordered(tokens)
    ensures Tokenize(Render(tokens)) == Some(tokens)
  {
    if tokens != [] {
      var t, rest := tokens[0], tokens[1..];
      assert Ordered(rest);
      TokenizeRender(rest);
      var s := Render(tokens);
      assert s == Key(t) + Render(rest);
      if rest == [] {
        assert s == Key(t);
        LastKeyMatches(t);
      } else {
        assert Render(rest) == Key(rest[0]) + Render(rest[1..]);
        OwnKeyMatches(t, rest[0], Render(rest));
      }
      assert s[|Key(t)|..] == Render(rest);
      assert tokens == [t] + rest;
    }
  }

  /** Round trip: reading back the numeral produced for `n` gives `n`. */
  lemma RomanRoundTrip(n: nat)
    ensures Decode(Roman(n)) == Some(n)
  {
    GreedyOrdered(n, 0);
    TokenizeRender(Greedy(n, 0));
  }

  /** Numerals are written with the seven letters M, D, C, L, X, V and I only. */
  lemma {:induction false} RenderAlphabet(tokens: seq<nat>)
    requires InTable(tokens)
    ensures forall i :: 0 <= i < |Render(tokens)| ==> Render(tokens)[i] in "MDCLXVI"
  {
    if tokens != [] {
      RenderAlphabet(tokens[1..]);
      var t := tokens[0];
      assert forall i :: 0 <= i < |Key(t)| ==> Key(t)[i] in "MDCLXVI";
    }
  }

  /** Examples: 1, 4 and 3999. */
  lemma RomanExamples()
    ensures Roman(1) == "I" && Roman(4) == "IV" && Roman(3999) == "MMMCMXCIX"
  {
    GreedySteps();
    assert Render([12]) == "I" by { assert Render([]) == ""; }
    assert Render([11]) == "IV" by { assert Render([]) == ""; }
    RenderOf3999();
  }

  lemma RenderOf3999()
    ensures Render([0, 0, 0, 1, 5, 9]) == "MMMCMXCIX"
  {
    RenderCons(9, []);
    RenderCons(5, [9]);
    RenderCons(1, [5, 9]);
    RenderCons(0, [1, 5, 9]);
    RenderCons(0, [0, 1, 5, 9]);
    RenderCons(0, [0, 0, 1, 5, 9]);
  }

  /** The text of a token followed by more tokens. */
  lemma RenderCons(t: nat, rest: seq<nat>)
    requires t < |Table| && InTable(rest)
    ensures Render([t] + rest) == Key(t) + Render(rest)
  {
    assert ([t] + rest)[1..] == rest;
  }

  /** The tokens for 1, 4 and 3999, unfolded a few steps at a time. */
  lemma GreedySteps()
    ensures Greedy(1, 0) == [12] && Greedy(4, 0) == [11] && Greedy(3999, 0) == [0, 0, 0, 1, 5, 9]
  {
    GreedyFromOne();
    GreedyFromFour();
    GreedyFrom3999();
  }

  /** One step of the greedy loop: entry `k` fits, so it is emitted. */
  lemma GreedyTake(n: nat, k: nat)
    requires k < |Table| && Value(k) <= n
    ensures Greedy(n, k) == [k] + Greedy(n - Value(k), k)
  {
  }

  /** One step of the greedy loop: entry `k` does not fit, so the loop moves on. */
  lemma GreedySkip(n: nat, k: nat)
    requires k < |Table| && n < Value(k)
    ensures Greedy(n, k) == Greedy(n, k + 1)
  {
  }

  /** Nothing is left to emit for 0. */
  lemma {:induction false} GreedyZero(k: nat)
    requires k <= |Table|
    ensures Greedy(0, k) == []
    decreases |Table| - k
  {
    if k < |Table| {
      GreedySkip(0, k);
      GreedyZero(k + 1);
    }
  }

  lemma GreedyFromOne()
    ensures Greedy(1, 0) == [12]
  {
    GreedySkipTo(1, 0, 12);
    GreedyTake(1, 12);
    GreedyZero(12);
  }

  lemma GreedyFromFour()
    ensures Greedy(4, 0) == [11]
  {
    GreedySkipTo(4, 0, 11);
    GreedyTake(4, 11);
    GreedyZero(11);
  }

  lemma GreedyFrom3999()
    ensures Greedy(3999, 0) == [0, 0, 0, 1, 5, 9]
  {
    GreedyTake(3999, 0);
    GreedyTake(2999, 0);
    GreedyTake(1999, 0);
    GreedyFrom999();
  }

  lemma GreedyFrom999()
    ensures Greedy(999, 0) == [1, 5, 9]
  {
    GreedySkip(999, 0);
    GreedyTake(999, 1);
    GreedyFrom99();
  }

  lemma GreedyFrom99()
    ensures Greedy(99, 1) == [5, 9]
  {
    GreedySkipTo(99, 1, 5);
    GreedyTake(99, 5);
    GreedyFrom9();
  }

  lemma GreedyFrom9()
    ensures Greedy(9, 5) == [9]
  {
    GreedySkipTo(9, 5, 9);
    GreedyTake(9, 9);
    GreedyZero(9);
  }

  /** The greedy loop passes over entries `k` to `m - 1` when none fits. */
  lemma {:induction false} GreedySkipTo(n: nat, k: nat, m: nat)
    requires k <= m < |Table| && (k < m ==> n < Value(m - 1))
    ensures Greedy(n, k) == Greedy(n, m)
    decreases m - k
  {
    if k < m {
      if k < m - 1 {
        ValuesDecrease(k, m - 1);
      }
      GreedySkip(n, k);
      GreedySkipTo(n, k + 1, m);
    }
  }
}
