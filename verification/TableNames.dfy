/** The table names that are accepted, spelled out. */
module TableNames {
  import opened TableViews

  const LOWER := "abcdefghijklmnopqrstuvwxyz"
  const UPPER := "ABCDEFGHIJKLMNOPQRSTUVWXYZ"
  const LETTERS := LOWER + UPPER + "_"
  const DIGITS := "0123456789"

  lemma LowerLetters(c: char)
    ensures 'a' <= c <= 'z' <==> c in LOWER
  {
    assert |LOWER| == 26;
    if 'a' <= c <= 'm' {
      assert LOWER[c as int - 'a' as int] == c;
    } else if 'm' < c <= 'z' {
      assert LOWER[c as int - 'a' as int] == c;
    }
  }

  lemma UpperLetters(c: char)
    ensures 'A' <= c <= 'Z' <==> c in UPPER
  {
    assert |UPPER| == 26;
    if 'A' <= c <= 'M' {
      assert UPPER[c as int - 'A' as int] == c;
    } else if 'M' < c <= 'Z' {
      assert UPPER[c as int - 'A' as int] == c;
    }
  }

  lemma LettersStartNames(c: char)
    ensures IsNameStart(c) <==> c in LETTERS
  {
    LowerLetters(c);
    UpperLetters(c);
    assert c in LETTERS <==> c in LOWER || c in UPPER || c == '_';
  }

  lemma DigitsAreDigits(c: char)
    ensures '0' <= c <= '9' <==> c in DIGITS
  {
    assert |DIGITS| == 10;
    if '0' <= c <= '9' {
      assert DIGITS[c as int - '0' as int] == c;
    }
  }

  /** A name is accepted exactly when it starts with one of the letters or an underscore, and goes on with
      these and digits. */
  lemma NamesAre(t: string)
    ensures IsTableName(t) <==>
      && t != [] && t[0] in LETTERS
      && forall i :: 0 < i < |t| ==> t[i] in LETTERS || t[i] in DIGITS
  {
    forall i | 0 <= i < |t| ensures (IsNameStart(t[i]) <==> t[i] in LETTERS) && ('0' <= t[i] <= '9' <==> t[i] in DIGITS) {
      LettersStartNames(t[i]);
      DigitsAreDigits(t[i]);
    }
  }

  /** Names may be joined by an underscore and extended by digits. */
  lemma NamesCombine(t: string, u: string, digits: string)
    requires IsTableName(t) && IsTableName(u) && forall i :: 0 <= i < |digits| ==> digits[i] in DIGITS
    ensures IsTableName(t + "_" + u) && IsTableName(t + digits)
  {
    forall i | 0 <= i < |digits| ensures '0' <= digits[i] <= '9' {
      DigitsAreDigits(digits[i]);
    }
    var joined := t + "_" + u;
    forall i | 0 <= i < |joined| ensures IsNameStart(joined[i]) || '0' <= joined[i] <= '9' {
      if i < |t| {
        assert joined[i] == t[i];
      } else if i > |t| {
        assert joined[i] == u[i - |t| - 1];
      }
    }
  }

  /** The configured table of the sample configuration; names with a digit in front, a dash or nothing in
      them are refused. */
  lemma SampleNames()
    ensures IsTableName("audit_log") && IsTableName("_2024")
    ensures !IsTableName("") && !IsTableName("2024_log") && !IsTableName("audit-log")
  {
    assert "audit-log"[5] == '-';
  }
}
