/** C strings as character sequences (the terminating NUL is the end of the sequence),
    the two string comparisons of the library, and decimal numerals. */
module CStrings {
  type Str = string

  datatype Option<+T> = None | Some(value: T)

  // Facts about concatenation that keep the proofs about texts small.

  lemma Assoc<T>(a: seq<T>, b: seq<T>, c: seq<T>)
    ensures a + (b + c) == (a + b) + c
  {
  }

  lemma DropHead<T>(a: seq<T>, b: seq<T>)
    requires a != []
    ensures (a + b)[0] == a[0] && (a + b)[1..] == a[1..] + b
  {
  }

  lemma DropPrefix<T>(a: seq<T>, b: seq<T>)
    ensures (a + b)[..|a|] == a && (a + b)[|a|..] == b
  {
  }

  /** tolower in the C locale. */
  function Lower(c: char): char {
    if 'A' <= c <= 'Z' then (c as int + 32) as char else c
  }

  /** What one character counts as under a case mode. */
  function FoldCase(c: char, cs: bool): char {
    if cs then c else Lower(c)
  }

  /** What a key counts as under a case mode: two keys are the same key iff their norms are equal. */
  function Norm(s: Str, cs: bool): Str {
    if cs then s else seq(|s|, i requires 0 <= i < |s| => Lower(s[i]))
  }

  lemma NormStep(s: Str, cs: bool)
    requires s != ""
    ensures Norm(s, cs) == [FoldCase(s[0], cs)] + Norm(s[1..], cs)
  {
  }

  lemma NormHeads(a: Str, b: Str, cs: bool)
    requires a != "" && b != ""
    ensures Norm(a, cs) == Norm(b, cs)
            <==> FoldCase(a[0], cs) == FoldCase(b[0], cs) && Norm(a[1..], cs) == Norm(b[1..], cs)
  {
    NormStep(a, cs);
    NormStep(b, cs);
    var na, nb := Norm(a, cs), Norm(b, cs);
    assert na == nb ==> na[0] == nb[0] && na[1..] == nb[1..];
  }

  /** strcmp (cs) or the tolower loop (not cs); only the sign of the result is ever used. */
  function Cmp(a: Str, b: Str, cs: bool): int {
    if a == "" then (if b == "" then 0 else -1)
    else if b == "" then 1
    else if FoldCase(a[0], cs) == FoldCase(b[0], cs) then Cmp(a[1..], b[1..], cs)
    else FoldCase(a[0], cs) as int - FoldCase(b[0], cs) as int
  }

  /** Comparing equal means having the same norm. */
  lemma {:induction false} CmpZero(a: Str, b: Str, cs: bool)
    ensures Cmp(a, b, cs) == 0 <==> Norm(a, cs) == Norm(b, cs)
  {
    if a != "" && b != "" {
      NormHeads(a, b, cs);
      CmpZero(a[1..], b[1..], cs);
    }
  }

  /** Swapping the arguments flips the sign. */
  lemma {:induction false} CmpFlip(a: Str, b: Str, cs: bool)
    ensures Cmp(a, b, cs) < 0 <==> Cmp(b, a, cs) > 0
  {
    if a != "" && b != "" && FoldCase(a[0], cs) == FoldCase(b[0], cs) {
      CmpFlip(a[1..], b[1..], cs);
    }
  }

  /** The comparison is transitive, also through equal keys. */
  lemma {:induction false} CmpTransitive(a: Str, b: Str, c: Str, cs: bool)
    requires Cmp(a, b, cs) <= 0 && Cmp(b, c, cs) <= 0
    ensures Cmp(a, c, cs) <= 0
    ensures Cmp(a, b, cs) < 0 || Cmp(b, c, cs) < 0 ==> Cmp(a, c, cs) < 0
  {
    if a != "" && b != "" && c != ""
       && FoldCase(a[0], cs) == FoldCase(b[0], cs) && FoldCase(b[0], cs) == FoldCase(c[0], cs) {
      CmpTransitive(a[1..], b[1..], c[1..], cs);
    }
  }

  /** compare_strings on two strings that are both there: the loop of the insensitive branch,
      which strcmp performs without the folding. */
  method CompareStrings(string1: Str, string2: Str, caseSensitive: bool) returns (diff: int)
    ensures diff == Cmp(string1, string2, caseSensitive)
  {
    var i := 0;
    while i < |string1| && i < |string2|
          && FoldCase(string1[i], caseSensitive) == FoldCase(string2[i], caseSensitive)
      invariant i <= |string1| && i <= |string2|
      invariant Cmp(string1, string2, caseSensitive) == Cmp(string1[i..], string2[i..], caseSensitive)
    {
      assert string1[i..][1..] == string1[i + 1..] && string2[i..][1..] == string2[i + 1..];
      i := i + 1;
    }
    if i == |string1| {
      diff := if i == |string2| then 0 else -1;
    } else if i == |string2| {
      diff := 1;
    } else {
      diff := FoldCase(string1[i], caseSensitive) as int - FoldCase(string2[i], caseSensitive) as int;
    }
  }

  /** The decimal digits that %lu prints. */
  function Dec(n: nat): (s: Str)
    ensures s != "" && forall c | c in s :: '0' <= c <= '9'
    ensures s[0] == '0' ==> n == 0 && |s| == 1
  {
    if n < 10 then [Digit(n)] else Dec(n / 10) + [Digit(n % 10)]
  }

  function Digit(d: nat): (c: char)
    requires d < 10
    ensures '0' <= c <= '9' && c as int - '0' as int == d
  {
    (d + '0' as int) as char
  }
}
