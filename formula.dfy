/** The row-reference translator of ExcelUtil: it rewrites the row numbers
    written inside formula text when rows are inserted or moved.

    Every maximal run of digits counts as a row number (1-based, as written in
    spreadsheet notation). A run is written back unchanged when it is
    protected by the absolute marker '$'; otherwise it is moved by the shift
    distance when it is at or below the insert point. Every other character
    is copied through. */
module Formula {
  import opened Decimal

  /** The absolute-reference marker (ABSOLUTE_CHAR). */
  const AbsoluteChar: char := '$'

  /** calFormulaNum: the text an unprotected digit run becomes. The insert
      point is 0-based and runs are 1-based row numbers, so a run of value n
      moves by `moveRowCount` exactly when insertPoint + 1 <= n. The result is
      written the way String.valueOf(int) writes it: leading zeros are gone,
      and a negative result carries a '-'. */
  function CalFormulaNum(numStr: string, moveRowCount: int, insertPoint: int): (r: string)
    requires AllDigits(numStr)
    ensures CanonicalInt(r)
    ensures ParseInt(r) == ShiftedRow(DigitsValue(numStr), moveRowCount, insertPoint)
    ensures Canonical(r) <==> ShiftedRow(DigitsValue(numStr), moveRowCount, insertPoint) >= 0
  {
    var v := ShiftedRow(DigitsValue(numStr), moveRowCount, insertPoint);
    IntToStringRoundTrip(v);
    IntToString(v)
  }

  /** The row-shift rule on values: rows strictly before the (1-based)
      insert row keep their number, the others move. */
  function ShiftedRow(rowNum: int, moveRowCount: int, insertPoint: int): int {
    if insertPoint + 1 <= rowNum then rowNum + moveRowCount else rowNum
  }

  /** Writes out the pending digit run: verbatim when protected, through
      calFormulaNum otherwise; nothing when no run is pending. */
  function Flush(numStr: string, isStable: bool, moveRowCount: int, insertRowNum: int): string
    requires AllDigits(numStr)
  {
    if numStr == [] then []
    else if isStable then numStr
    else CalFormulaNum(numStr, moveRowCount, insertRowNum)
  }

  /** The text the scan of moveFormula appends for the remaining input `s`,
      given the pending digit run `numStr` and the marker flag `isStable`.
      A digit only extends the run. At any other character the flag is set
      first if it is the marker, then the pending run is flushed (which clears
      the flag), then the character itself is copied. At the end of the
      input the pending run is flushed. */
  function Scan(s: string, numStr: string, isStable: bool, moveRowCount: int, insertRowNum: int): string
    requires AllDigits(numStr)
    decreases |s|
  {
    if s == [] then Flush(numStr, isStable, moveRowCount, insertRowNum)
    else if IsDigit(s[0]) then Scan(s[1..], numStr + [s[0]], isStable, moveRowCount, insertRowNum)
    else
      var armed := isStable || s[0] == AbsoluteChar;
      Flush(numStr, armed, moveRowCount, insertRowNum) + [s[0]]
        + Scan(s[1..], [], numStr == [] && armed, moveRowCount, insertRowNum)
  }

  /** What moveFormula(formula, moveRowCount, insertRowNum) returns. */
  function Moved(formula: string, moveRowCount: int, insertRowNum: int): string {
    if moveRowCount == 0 then formula else Scan(formula, [], false, moveRowCount, insertRowNum)
  }

  /** A zero shift leaves the formula as it is, whatever the insert point. */
  lemma MovedZero(formula: string, insertRowNum: int)
    ensures Moved(formula, 0, insertRowNum) == formula
  {
  }

  /** A formula without digits comes back unchanged. */
  lemma MovedNoDigits(formula: string, moveRowCount: int, insertRowNum: int)
    requires NoDigits(formula)
    ensures Moved(formula, moveRowCount, insertRowNum) == formula
  {
    ScanNoDigits(formula, false, moveRowCount, insertRowNum);
  }

  /** With a non-negative shift, deleting the digits of the result gives the
      input with its digits deleted: digits are only buffered, and every
      other character is copied once, in order. */
  lemma MovedKeepsNonDigits(formula: string, moveRowCount: int, insertRowNum: int)
    requires moveRowCount >= 0
    ensures StripDigits(Moved(formula, moveRowCount, insertRowNum)) == StripDigits(formula)
  {
    if moveRowCount != 0 {
      ScanKeepsNonDigits(formula, [], false, moveRowCount, insertRowNum);
    }
  }

  /** moveFormula(String, int, int): the character-by-character scan. */
  method MoveFormula(formula: string, moveRowCount: int, insertRowNum: int) returns (r: string)
    ensures r == Moved(formula, moveRowCount, insertRowNum)
  {
    if moveRowCount == 0 {
      return formula;
    }
    var sb := "";
    var isStable := false;
    var numStr := "";
    for i := 0 to |formula|
      invariant AllDigits(numStr)
      invariant sb + Scan(formula[i..], numStr, isStable, moveRowCount, insertRowNum)
             == Scan(formula, [], false, moveRowCount, insertRowNum)
    {
      var c := formula[i];
      assert formula[i..] == [c] + formula[i + 1..];
      ScanStep(c, formula[i + 1..], numStr, isStable, moveRowCount, insertRowNum);
      if IsDigit(c) {
        numStr := numStr + [c];
      } else {
        ghost var before := sb;
        ghost var rest := formula[i + 1..];
        ghost var flushed := Flush(numStr, isStable || c == AbsoluteChar, moveRowCount, insertRowNum);
        ghost var nextStable := numStr == [] && (isStable || c == AbsoluteChar);
        assert Scan(formula[i..], numStr, isStable, moveRowCount, insertRowNum)
            == flushed + [c] + Scan(rest, [], nextStable, moveRowCount, insertRowNum);
        if c == AbsoluteChar {
          isStable := true;
        }
        if numStr != [] {
          if isStable {
            sb := sb + numStr;
            isStable := false;
          } else {
            sb := sb + CalFormulaNum(numStr, moveRowCount, insertRowNum);
          }
          numStr := "";
        }
        assert sb == before + flushed && isStable == nextStable;
        sb := sb + [c];
        AppendAssoc(before, flushed, [c]);
        AppendAssoc(before, flushed + [c], Scan(rest, [], nextStable, moveRowCount, insertRowNum));
      }
    }
    assert formula[|formula|..] == [];
    if numStr != [] {
      if isStable {
        sb := sb + numStr;
      } else {
        sb := sb + CalFormulaNum(numStr, moveRowCount, insertRowNum);
      }
      numStr := "";
    }
    r := sb;
  }

  lemma AppendAssoc(a: string, b: string, c: string)
    ensures (a + b) + c == a + (b + c)
  {
  }

  /** One step of the scan, for the character `c` in front of `rest`. */
  lemma ScanStep(c: char, rest: string, numStr: string, isStable: bool, moveRowCount: int, insertRowNum: int)
    requires AllDigits(numStr)
    ensures IsDigit(c) ==> Scan([c] + rest, numStr, isStable, moveRowCount, insertRowNum)
                           == Scan(rest, numStr + [c], isStable, moveRowCount, insertRowNum)
    ensures !IsDigit(c) ==>
              var armed := isStable || c == AbsoluteChar;
              Scan([c] + rest, numStr, isStable, moveRowCount, insertRowNum)
              == Flush(numStr, armed, moveRowCount, insertRowNum) + [c]
                 + Scan(rest, [], numStr == [] && armed, moveRowCount, insertRowNum)
  {
    assert ([c] + rest)[1..] == rest;
  }

  /** moveFormula(String, int): the copy form, with insert point 0, so every
      unprotected run of value at least 1 moves. */
  method MoveFormulaRows(formula: string, moveRowCount: int) returns (r: string)
    ensures r == Moved(formula, moveRowCount, 0)
  {
    r := MoveFormula(formula, moveRowCount, 0);
  }

  /** moveFormulaByInsert: the same translation under a second name. */
  method MoveFormulaByInsert(formula: string, moveRowCount: int, insertRowNum: int) returns (r: string)
    ensures r == Moved(formula, moveRowCount, insertRowNum)
  {
    r := MoveFormula(formula, moveRowCount, insertRowNum);
  }

  // ---------------------------------------------------------------------
  // Non-digit characters pass through in order

  /** `s` with every digit deleted. */
  function StripDigits(s: string): (r: string)
    ensures NoDigits(r)
    ensures |r| <= |s|
  {
    if s == [] then []
    else (if IsDigit(s[0]) then [] else [s[0]]) + StripDigits(s[1..])
  }

  lemma {:induction false} StripDigitsAppend(a: string, b: string)
    ensures StripDigits(a + b) == StripDigits(a) + StripDigits(b)
    decreases |a|
  {
    if a != [] {
      var h := if IsDigit(a[0]) then [] else [a[0]];
      assert (a + b)[0] == a[0];
      assert (a + b)[1..] == a[1..] + b;
      StripDigitsAppend(a[1..], b);
      calc {
        StripDigits(a + b);
        h + StripDigits(a[1..] + b);
        h + (StripDigits(a[1..]) + StripDigits(b));
        (h + StripDigits(a[1..])) + StripDigits(b);
      }
    } else {
      assert a + b == b;
    }
  }

  lemma {:induction false} StripAllDigits(s: string)
    requires AllDigits(s)
    ensures StripDigits(s) == []
    decreases |s|
  {
    if s != [] {
      StripAllDigits(s[1..]);
    }
  }

  /** With a non-negative shift every flushed run is written as digits
      only, so the characters that are not digits come out exactly as they
      went in. */
  lemma {:induction false} ScanKeepsNonDigits(s: string, numStr: string, isStable: bool, moveRowCount: int, insertRowNum: int)
    requires AllDigits(numStr)
    requires moveRowCount >= 0
    ensures StripDigits(Scan(s, numStr, isStable, moveRowCount, insertRowNum)) == StripDigits(s)
    decreases |s|
  {
    if s == [] {
      FlushIsDigits(numStr, isStable, moveRowCount, insertRowNum);
    } else if IsDigit(s[0]) {
      ScanKeepsNonDigits(s[1..], numStr + [s[0]], isStable, moveRowCount, insertRowNum);
    } else {
      var c := s[0];
      var armed := isStable || c == AbsoluteChar;
      var head := Flush(numStr, armed, moveRowCount, insertRowNum);
      var tail := Scan(s[1..], [], numStr == [] && armed, moveRowCount, insertRowNum);
      ScanKeepsNonDigits(s[1..], [], numStr == [] && armed, moveRowCount, insertRowNum);
      KeepOneNonDigit(head, c, tail, numStr, armed, moveRowCount, insertRowNum);
      StripDigitsCons(s);
    }
  }

  /** The step of ScanKeepsNonDigits at a character that is not a digit. */
  lemma KeepOneNonDigit(head: string, c: char, tail: string, numStr: string, armed: bool, moveRowCount: int, insertRowNum: int)
    requires AllDigits(numStr) && moveRowCount >= 0 && !IsDigit(c)
    requires head == Flush(numStr, armed, moveRowCount, insertRowNum)
    ensures StripDigits(head + [c] + tail) == [c] + StripDigits(tail)
  {
    FlushIsDigits(numStr, armed, moveRowCount, insertRowNum);
    StripDigitsAppend(head + [c], tail);
    StripDigitsAppend(head, [c]);
    StripDigitsCons([c]);
    assert [c][1..] == [];
  }

  /** StripDigits unfolded once. */
  lemma StripDigitsCons(s: string)
    requires s != []
    ensures StripDigits(s) == (if IsDigit(s[0]) then [] else [s[0]]) + StripDigits(s[1..])
  {
  }

  lemma FlushIsDigits(numStr: string, isStable: bool, moveRowCount: int, insertRowNum: int)
    requires AllDigits(numStr)
    requires moveRowCount >= 0
    ensures StripDigits(Flush(numStr, isStable, moveRowCount, insertRowNum)) == []
  {
    var r := Flush(numStr, isStable, moveRowCount, insertRowNum);
    assert AllDigits(r);
    StripAllDigits(r);
  }

  /** Text without digits is scanned back to itself. */
  lemma {:induction false} ScanNoDigits(s: string, isStable: bool, moveRowCount: int, insertRowNum: int)
    requires NoDigits(s)
    ensures Scan(s, [], isStable, moveRowCount, insertRowNum) == s
    decreases |s|
  {
    if s != [] {
      ScanNoDigits(s[1..], isStable || s[0] == AbsoluteChar, moveRowCount, insertRowNum);
    }
  }

  /** A negative shift can make a row number negative; String.valueOf then
      puts a '-' into the formula, a character that was not there before. */
  lemma NegativeShiftAddsMinus()
    ensures Moved("A1", -2, 0) == "A-1"
    ensures StripDigits(Moved("A1", -2, 0)) != StripDigits("A1")
  {
    assert CalFormulaNum("1", -2, 0) == "-1" by {
      assert DigitsValue("1") == 1 by {
        assert "1"[..0] == [];
      }
      assert NatToDigits(1) == "1";
    }
    assert Scan("A1", [], false, -2, 0) == "A-1" by {
      assert "A1"[1..] == "1";
      assert "1"[1..] == [];
      assert Scan("A1", [], false, -2, 0) == "A" + Scan("1", [], false, -2, 0);
      assert Scan("1", [], false, -2, 0) == Scan([], "1", false, -2, 0);
    }
    assert StripDigits("A-1") == "A-" by {
      assert "A-1"[1..] == "-1";
      assert "-1"[1..] == "1";
    }
    assert StripDigits("A1") == "A" by {
      assert "A1"[1..] == "1";
    }
  }
}
