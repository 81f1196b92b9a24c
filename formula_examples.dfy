/** Worked instances of the row-reference translator: the documented
    examples of moveFormula and the scan quirks it keeps. */
module FormulaExamples {
  import opened Decimal
  import opened Formula

  /** The value of a one-digit run is its digit. */
  lemma OneDigit(c: char)
    requires IsDigit(c)
    ensures DigitsValue([c]) == DigitValue(c)
  {
    assert [c][..0] == [];
  }

  /** A zero shift is the identity, whatever the insert point. */
  lemma ZeroShiftExample(insertRowNum: int)
    ensures Moved("A1+B2", 0, insertRowNum) == "A1+B2"
  {
  }

  /** The copy form (insert point 0): every row number moves. */
  lemma CopyExample()
    ensures Moved("A1+B2", 1, 0) == "A2+B3"
  {
    OneDigit('1');
    OneDigit('2');
    assert CalFormulaNum("1", 1, 0) == "2" by { assert NatToDigits(2) == "2"; }
    assert CalFormulaNum("2", 1, 0) == "3" by { assert NatToDigits(3) == "3"; }
    assert Scan("2", [], false, 1, 0) == "3" by {
      assert "2"[1..] == [];
    }
    assert Scan("+B2", "1", false, 1, 0) == "2+B3" by {
      assert "+B2"[1..] == "B2" && "B2"[1..] == "2";
    }
    assert "A1+B2"[1..] == "1+B2" && "1+B2"[1..] == "+B2";
  }

  /** Insert point 4: row numbers below 5 stay, the others move. */
  lemma InsertExample()
    ensures Moved("A1+B5", 2, 4) == "A1+B7"
  {
    OneDigit('1');
    OneDigit('5');
    assert CalFormulaNum("1", 2, 4) == "1" by { assert NatToDigits(1) == "1"; }
    assert CalFormulaNum("5", 2, 4) == "7" by { assert NatToDigits(7) == "7"; }
    assert Scan("B5", [], false, 2, 4) == "B7" by {
      assert "B5"[1..] == "5" && "5"[1..] == [];
    }
    assert Scan("+B5", "1", false, 2, 4) == "1+B7" by {
      assert "+B5"[1..] == "B5";
    }
    assert "A1+B5"[1..] == "1+B5" && "1+B5"[1..] == "+B5";
  }

  /** Each marker protects the run that follows it; the unmarked run moves. */
  lemma MarkerExample()
    ensures Moved("$A$1+B2", 1, 0) == "$A$1+B3"
  {
    OneDigit('2');
    assert CalFormulaNum("2", 1, 0) == "3" by { assert NatToDigits(3) == "3"; }
    assert Scan("B2", [], false, 1, 0) == "B3" by {
      assert "B2"[1..] == "2" && "2"[1..] == [];
    }
    assert Scan("1+B2", [], true, 1, 0) == "1+B3" by {
      assert "1+B2"[1..] == "+B2" && "+B2"[1..] == "B2";
    }
    assert Scan("$1+B2", [], true, 1, 0) == "$1+B3" by {
      assert "$1+B2"[1..] == "1+B2";
    }
    assert Scan("A$1+B2", [], true, 1, 0) == "A$1+B3" by {
      assert "A$1+B2"[1..] == "$1+B2";
    }
    assert "$A$1+B2"[1..] == "A$1+B2";
  }

  /** A marker before the column letter stays armed across it and protects
      the row number too. */
  lemma MixedReferenceExample()
    ensures Moved("$A1+B2", 1, 0) == "$A1+B3"
  {
    OneDigit('2');
    assert CalFormulaNum("2", 1, 0) == "3" by { assert NatToDigits(3) == "3"; }
    assert Scan("B2", [], false, 1, 0) == "B3" by {
      assert "B2"[1..] == "2" && "2"[1..] == [];
    }
    assert Scan("+B2", "1", true, 1, 0) == "1+B3" by {
      assert "+B2"[1..] == "B2";
    }
    assert "$A1+B2"[1..] == "A1+B2" && "A1+B2"[1..] == "1+B2" && "1+B2"[1..] == "+B2";
  }

  /** The flag is set before the pending run is flushed, so a marker right
      after a run protects that run; the flag is then clear again. */
  lemma MarkerAfterRunExample()
    ensures Moved("A1$B2", 1, 0) == "A1$B3"
  {
    OneDigit('2');
    assert CalFormulaNum("2", 1, 0) == "3" by { assert NatToDigits(3) == "3"; }
    assert Scan("B2", [], false, 1, 0) == "B3" by {
      assert "B2"[1..] == "2" && "2"[1..] == [];
    }
    assert Scan("$B2", "1", false, 1, 0) == "1$B3" by {
      assert "$B2"[1..] == "B2";
    }
    assert "A1$B2"[1..] == "1$B2" && "1$B2"[1..] == "$B2";
  }

  /** The flag stays armed across any number of other characters, up to the
      next run. */
  lemma CarryOverExample()
    ensures Moved("$A+B1", 1, 0) == "$A+B1"
  {
    assert Scan("1", [], true, 1, 0) == "1" by {
      assert "1"[1..] == [];
    }
    assert "$A+B1"[1..] == "A+B1" && "A+B1"[1..] == "+B1" && "+B1"[1..] == "B1" && "B1"[1..] == "1";
  }

  /** A run that does not move is still rewritten through parseInt and
      String.valueOf: its leading zeros are dropped. */
  lemma LeadingZerosExample()
    ensures CalFormulaNum("007", 1, 10) == "7"
    ensures Moved("A007", 1, 10) == "A7"
  {
    assert DigitsValue("007") == 7 by {
      assert "007"[..2] == "00" && "00"[..1] == "0" && "0"[..0] == [];
    }
    assert CalFormulaNum("007", 1, 10) == "7" by { assert NatToDigits(7) == "7"; }
    assert Scan("007", [], false, 1, 10) == "7" by {
      assert "007"[1..] == "07" && "07"[1..] == "7" && "7"[1..] == [];
      assert [] + ['0'] == "0" && "0" + ['0'] == "00" && "00" + ['7'] == "007";
    }
    assert "A007"[1..] == "007";
  }

  /** A protected run is copied verbatim, leading zeros included. */
  lemma ProtectedZerosExample()
    ensures Moved("$A007", 1, 0) == "$A007"
  {
    assert Scan("007", [], true, 1, 0) == "007" by {
      assert "007"[1..] == "07" && "07"[1..] == "7" && "7"[1..] == [];
      assert [] + ['0'] == "0" && "0" + ['0'] == "00" && "00" + ['7'] == "007";
    }
    assert "$A007"[1..] == "A007" && "A007"[1..] == "007";
  }
}
