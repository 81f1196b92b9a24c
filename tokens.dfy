/** A token-level account of the formula translation, independent of the
    character scan: a formula is a sequence of maximal digit runs and single
    other characters, and the translation decides each run's fate from the
    tokens around it. */
module FormulaTokens {
  import opened Decimal
  import opened Formula

  /** A run of digits. */
  type DigitString = d: string | AllDigits(d)

  datatype Token = Run(digits: DigitString) | Other(c: char)

  function Text(t: Token): string {
    match t
    case Run(d) => d
    case Other(c) => [c]
  }

  /** The text a sequence of tokens spells. */
  function Untokenize(ts: seq<Token>): string
    decreases |ts|
  {
    if ts == [] then [] else Text(ts[0]) + Untokenize(ts[1..])
  }

  predicate WellFormed(t: Token) {
    match t
    case Run(d) => |d| > 0
    case Other(c) => !IsDigit(c)
  }

  /** Every token is well formed and no run is followed directly by
      another. */
  predicate Maximal(ts: seq<Token>) {
    (forall i :: 0 <= i < |ts| ==> WellFormed(ts[i])) &&
    (forall i :: 0 <= i < |ts| - 1 && ts[i].Run? ==> ts[i + 1].Other?)
  }

  /** The number of digits at the front of `s`. */
  function LeadingDigits(s: string): (n: nat)
    ensures n <= |s|
    ensures AllDigits(s[..n])
    ensures n < |s| ==> !IsDigit(s[n])
    decreases |s|
  {
    if s == [] || !IsDigit(s[0]) then 0
    else
      var n := 1 + LeadingDigits(s[1..]);
      assert s[..n] == [s[0]] + s[1..][..n - 1];
      n
  }

  /** The tokens of a formula: each maximal run of digits, and each other
      character on its own. */
  function Tokens(s: string): seq<Token>
    decreases |s|
  {
    if s == [] then []
    else if !IsDigit(s[0]) then [Other(s[0])] + Tokens(s[1..])
    else
      var n := LeadingDigits(s);
      [Run(s[..n])] + Tokens(s[n..])
  }

  /** The tokens spell the formula back, and their runs are maximal. */
  lemma {:induction false} TokensSpell(s: string)
    ensures Untokenize(Tokens(s)) == s
    ensures Maximal(Tokens(s))
    ensures s != [] ==> Tokens(s) != [] && (Tokens(s)[0].Run? <==> IsDigit(s[0]))
    decreases |s|
  {
    if s == [] {
    } else {
      var ts := Tokens(s);
      var n := if IsDigit(s[0]) then LeadingDigits(s) else 1;
      TokensSpell(s[n..]);
      assert ts[1..] == Tokens(s[n..]);
      assert s[..n] + s[n..] == s;
      if !IsDigit(s[0]) {
        assert s[..n] == [s[0]];
      }
    }
  }

  /** The translation at the level of tokens. A character is copied, and a
      marker arms the protection. A run followed directly by the marker is
      kept verbatim, and that marker arms nothing. Any other run is kept
      verbatim when armed and goes through calFormulaNum when not. Every run
      disarms. */
  function Rewrite(ts: seq<Token>, armed: bool, moveRowCount: int, insertRowNum: int): string
    decreases |ts|
  {
    if ts == [] then []
    else match ts[0]
      case Other(c) => [c] + Rewrite(ts[1..], armed || c == AbsoluteChar, moveRowCount, insertRowNum)
      case Run(d) =>
        if |ts| > 1 && ts[1] == Other(AbsoluteChar) then
          d + [AbsoluteChar] + Rewrite(ts[2..], false, moveRowCount, insertRowNum)
        else
          (if armed then d else CalFormulaNum(d, moveRowCount, insertRowNum))
            + Rewrite(ts[1..], false, moveRowCount, insertRowNum)
  }

  /** Digits at the front of the input only extend the pending run. */
  lemma {:induction false} AbsorbDigits(s: string, numStr: string, isStable: bool, moveRowCount: int, insertRowNum: int)
    requires AllDigits(numStr)
    ensures AllDigits(numStr + s[..LeadingDigits(s)])
    ensures Scan(s, numStr, isStable, moveRowCount, insertRowNum)
         == Scan(s[LeadingDigits(s)..], numStr + s[..LeadingDigits(s)], isStable, moveRowCount, insertRowNum)
    decreases |s|
  {
    var n := LeadingDigits(s);
    if s != [] && IsDigit(s[0]) {
      AbsorbDigits(s[1..], numStr + [s[0]], isStable, moveRowCount, insertRowNum);
      var n' := LeadingDigits(s[1..]);
      assert n == 1 + n';
      assert s[1..][n'..] == s[n..];
      assert s[..n] == [s[0]] + s[1..][..n'];
      AppendAssoc(numStr, [s[0]], s[1..][..n']);
    } else {
      assert s[..n] == [];
      assert numStr + [] == numStr;
    }
  }

  /** The character scan and the token rewrite agree on every input. */
  lemma {:induction false} ScanIsRewrite(s: string, armed: bool, moveRowCount: int, insertRowNum: int)
    ensures Scan(s, [], armed, moveRowCount, insertRowNum) == Rewrite(Tokens(s), armed, moveRowCount, insertRowNum)
    decreases |s|
  {
    if s == [] {
    } else if !IsDigit(s[0]) {
      ScanIsRewrite(s[1..], armed || s[0] == AbsoluteChar, moveRowCount, insertRowNum);
      ScanOtherStep(s, armed, moveRowCount, insertRowNum);
    } else {
      var n := LeadingDigits(s);
      var rest := s[n..];
      if rest == [] {
        ScanRunStep(s, [], armed, moveRowCount, insertRowNum);
      } else {
        ScanIsRewrite(rest[1..], false, moveRowCount, insertRowNum);
        ScanRunStep(s, rest[1..], armed, moveRowCount, insertRowNum);
      }
    }
  }

  /** The step of ScanIsRewrite for a formula that starts with a character
      other than a digit. */
  lemma ScanOtherStep(s: string, armed: bool, moveRowCount: int, insertRowNum: int)
    requires s != [] && !IsDigit(s[0])
    requires Scan(s[1..], [], armed || s[0] == AbsoluteChar, moveRowCount, insertRowNum)
          == Rewrite(Tokens(s[1..]), armed || s[0] == AbsoluteChar, moveRowCount, insertRowNum)
    ensures Scan(s, [], armed, moveRowCount, insertRowNum) == Rewrite(Tokens(s), armed, moveRowCount, insertRowNum)
  {
    var ts := Tokens(s);
    assert ts[0] == Other(s[0]) && ts[1..] == Tokens(s[1..]);
  }

  /** The step of ScanIsRewrite for a formula that starts with a digit run:
      given the agreement on what follows the run and the character after
      it, the two agree on the whole. */
  lemma ScanRunStep(s: string, after: string, armed: bool, moveRowCount: int, insertRowNum: int)
    requires s != [] && IsDigit(s[0])
    requires LeadingDigits(s) == |s| || s[LeadingDigits(s) + 1..] == after
    requires LeadingDigits(s) < |s| ==>
               Scan(after, [], false, moveRowCount, insertRowNum) == Rewrite(Tokens(after), false, moveRowCount, insertRowNum)
    ensures Scan(s, [], armed, moveRowCount, insertRowNum) == Rewrite(Tokens(s), armed, moveRowCount, insertRowNum)
  {
    ScanAtRun(s, armed, moveRowCount, insertRowNum);
    TokensAtRun(s);
    var n := LeadingDigits(s);
    if n < |s| {
      RewriteAtRun(s[..n], s[n], Tokens(after), armed, moveRowCount, insertRowNum);
    } else {
      assert s[..n] == s;
      var ts := [Run(s[..n])];
      assert ts[1..] == [];
      var r := if armed then s else CalFormulaNum(s, moveRowCount, insertRowNum);
      assert Rewrite(ts, armed, moveRowCount, insertRowNum) == r + [];
      assert r + [] == r;
    }
  }

  /** Scan over a formula that starts with a digit run: the run is flushed
      at the character after it, or at the end. */
  lemma ScanAtRun(s: string, armed: bool, moveRowCount: int, insertRowNum: int)
    requires s != [] && IsDigit(s[0])
    ensures var n := LeadingDigits(s);
      Scan(s, [], armed, moveRowCount, insertRowNum) ==
        if n == |s| then Flush(s, armed, moveRowCount, insertRowNum)
        else Flush(s[..n], armed || s[n] == AbsoluteChar, moveRowCount, insertRowNum) + [s[n]]
               + Scan(s[n + 1..], [], false, moveRowCount, insertRowNum)
  {
    var n := LeadingDigits(s);
    var d := s[..n];
    assert Scan(s, [], armed, moveRowCount, insertRowNum) == Scan(s[n..], d, armed, moveRowCount, insertRowNum) by {
      AbsorbDigits(s, [], armed, moveRowCount, insertRowNum);
      assert [] + d == d;
    }
    if n < |s| {
      var c := s[n];
      var after := s[n + 1..];
      assert s[n..] == [c] + after;
      assert d != [] && AllDigits(d) && !IsDigit(c);
      ScanStep(c, after, d, armed, moveRowCount, insertRowNum);
    } else {
      assert d == s && s[n..] == [];
    }
  }

  /** The tokens of a formula that starts with a digit run. */
  lemma TokensAtRun(s: string)
    requires s != [] && IsDigit(s[0])
    ensures var n := LeadingDigits(s);
      Tokens(s) == if n == |s| then [Run(s[..n])] else [Run(s[..n]), Other(s[n])] + Tokens(s[n + 1..])
  {
    var n := LeadingDigits(s);
    var rest := s[n..];
    assert Tokens(s) == [Run(s[..n])] + Tokens(rest);
    if n < |s| {
      assert rest[1..] == s[n + 1..];
      assert Tokens(rest) == [Other(s[n])] + Tokens(s[n + 1..]);
      PairPrefix(Run(s[..n]), Other(s[n]), Tokens(s[n + 1..]));
    } else {
      assert rest == [];
    }
  }

  lemma PairPrefix<T>(a: T, b: T, xs: seq<T>)
    ensures [a] + ([b] + xs) == [a, b] + xs
  {
  }

  /** Rewrite at a run followed by a character. */
  lemma RewriteAtRun(d: DigitString, c: char, ts: seq<Token>, armed: bool, moveRowCount: int, insertRowNum: int)
    requires |d| > 0
    ensures Rewrite([Run(d), Other(c)] + ts, armed, moveRowCount, insertRowNum) ==
              Flush(d, armed || c == AbsoluteChar, moveRowCount, insertRowNum) + [c]
                + Rewrite(ts, false, moveRowCount, insertRowNum)
  {
    var all := [Run(d), Other(c)] + ts;
    assert all[1] == Other(c) && all[2..] == ts;
    if c != AbsoluteChar {
      var tail := Rewrite(ts, false, moveRowCount, insertRowNum);
      assert all[1..] == [Other(c)] + ts;
      assert ([Other(c)] + ts)[1..] == ts;
      AppendAssoc(Flush(d, armed, moveRowCount, insertRowNum), [c], tail);
    }
  }

  /** moveFormula with a non-zero shift is the token rewrite of the formula's
      tokens, starting unarmed. */
  lemma MovedIsRewrite(formula: string, moveRowCount: int, insertRowNum: int)
    requires moveRowCount != 0
    ensures Moved(formula, moveRowCount, insertRowNum) == Rewrite(Tokens(formula), false, moveRowCount, insertRowNum)
  {
    ScanIsRewrite(formula, false, moveRowCount, insertRowNum);
  }
}
