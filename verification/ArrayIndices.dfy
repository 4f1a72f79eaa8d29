/** Array indices: exactly when the decoder reads a token as section 4 of RFC 6901 does. */
module ArrayIndices {
  import opened CStrings
  import opened Grammar
  import opened Pointers

  predicate Decimal(t: Str) {
    forall c | c in t :: IsDigit(c)
  }

  /** The array-index of section 4 of RFC 6901: digits without leading zeros. */
  function StandardIndex(t: Str): Option<nat> {
    if t != "" && Decimal(t) && (|t| > 1 ==> t[0] != '0') then Some(DigitsValue(t)) else None
  }

  lemma WrapStep(v: nat, d: nat)
    ensures (10 * (v % SIZE_MODULUS) + d) % SIZE_MODULUS == (10 * v + d) % SIZE_MODULUS
  {
    var q, r := v / SIZE_MODULUS, v % SIZE_MODULUS;
    var e := (10 * r + d) / SIZE_MODULUS;
    assert (10 * v + d) / SIZE_MODULUS == 10 * q + e;
  }

  /** Decimal digits are read at their value, modulo the width of size_t. */
  lemma {:induction false} DigitsRead(t: Str, pos: nat)
    requires pos <= |t| && Decimal(t[..pos]) && (pos > 0 ==> t[0] <= '9')
    ensures IndexDigits(t, 0, 0) == IndexDigits(t, pos, DigitsValue(t[..pos]) % SIZE_MODULUS)
    decreases pos
  {
    if pos == 0 {
      assert t[..0] == "";
    } else {
      var front := t[..pos - 1];
      assert t[..pos][..pos - 1] == front && t[..pos][pos - 1] == t[pos - 1] && t[pos - 1] in t[..pos];
      assert forall c | c in front :: c in t[..pos];
      DigitsRead(t, pos - 1);
      WrapStep(DigitsValue(front), DigitValue(t[pos - 1]));
    }
  }

  /** The loop stops in front of the first character below '0'. */
  lemma {:induction false} ReadTo(t: Str, pos: nat, index: nat)
    requires pos <= |t| && t != "" && t[0] <= '9'
    ensures IndexDigits(t, pos, index).0 == |t| <==> forall i | pos <= i < |t| :: t[i] >= '0'
    decreases |t| - pos
  {
    if pos < |t| && t[pos] >= '0' {
      ReadTo(t, pos + 1, (10 * index + (t[pos] as int - '0' as int)) % SIZE_MODULUS);
    }
  }

  lemma DecimalIsRead(t: Str)
    requires t != "" && Decimal(t)
    ensures IndexDigits(t, 0, 0) == (|t|, DigitsValue(t) % SIZE_MODULUS)
  {
    assert t[0] in t && t[..|t|] == t;
    DigitsRead(t, |t|);
  }

  /** Tokens on which the two readings part: the empty token, which is taken for 0; numerals that do not fit
      in size_t; and numerals with characters above '9' behind the first digit. */
  predicate Misread(t: Str) {
    t == ""
    || ('0' <= t[0] <= '9' && (|t| > 1 ==> t[0] != '0') && (forall i | 0 <= i < |t| :: t[i] >= '0')
        && !(Decimal(t) && DigitsValue(t) < SIZE_MODULUS))
  }

  /** The decoder reads a token as the standard does exactly when it is none of these. */
  lemma IndicesReadExactly(t: Str)
    requires '/' !in t
    ensures DecodeIndex(t) == StandardIndex(t) <==> !Misread(t)
  {
    hide IndexDigits, DigitsValue;
    if t == "" {
      EmptyToken();
    } else {
      assert t[0] in t && (|t| > 1 ==> t[1] in t);
      if Decimal(t) {
        DecimalIsRead(t);
        forall i | 0 <= i < |t| ensures t[i] >= '0' { assert t[i] in t; }
      } else if '0' <= t[0] <= '9' {
        ReadTo(t, 0, 0);
        NoSlashAt(t);
      } else {
        NotANumeral(t);
      }
    }
  }

  lemma EmptyToken()
    ensures DecodeIndex("") == Some(0)
  {
  }

  lemma NoSlashAt(t: Str)
    requires '/' !in t
    ensures forall i | 0 <= i < |t| :: t[i] != '/'
  {
  }

  lemma NotANumeral(t: Str)
    requires t != "" && '/' !in t && !IsDigit(t[0])
    ensures DecodeIndex(t) == None
  {
  }
}
