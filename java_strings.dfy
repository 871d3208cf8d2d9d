/** The few java.lang.String operations the specification layer relies on. */
module JavaStrings {

  /** A character that String.trim removes: every code point up to U+0020. */
  predicate IsSpace(c: char) {
    c <= ' '
  }

  /** r sits at position start of s, and everything around it is trimmable. */
  ghost predicate TrimmedAt(s: string, r: string, start: nat) {
    && start + |r| <= |s|
    && s[start..start + |r|] == r
    && (forall i :: 0 <= i < start ==> IsSpace(s[i]))
    && (forall i :: start + |r| <= i < |s| ==> IsSpace(s[i]))
  }

  function DropLeading(s: string): (r: string)
    ensures |r| <= |s| && r == s[|s| - |r|..]
    ensures forall i :: 0 <= i < |s| - |r| ==> IsSpace(s[i])
    ensures r != [] ==> !IsSpace(r[0])
  {
    if s != [] && IsSpace(s[0]) then DropLeading(s[1..]) else s
  }

  function DropTrailing(s: string): (r: string)
    ensures |r| <= |s| && r == s[..|r|]
    ensures forall i :: |r| <= i < |s| ==> IsSpace(s[i])
    ensures r != [] ==> !IsSpace(r[|r| - 1])
  {
    if s != [] && IsSpace(s[|s| - 1]) then DropTrailing(s[..|s| - 1]) else s
  }

  /** String.trim: drop trimmable characters from both ends. */
  function Trim(s: string): string {
    DropTrailing(DropLeading(s))
  }

  /** The trimmed string is the middle of s between trimmable ends, and neither starts nor ends with a trimmable character. */
  lemma TrimSpec(s: string)
    ensures exists start :: TrimmedAt(s, Trim(s), start)
    ensures Trim(s) != [] ==> !IsSpace(Trim(s)[0]) && !IsSpace(Trim(s)[|Trim(s)| - 1])
  {
    TrimAt(s);
    TrimEnds(s);
  }

  lemma TrimAt(s: string)
    ensures TrimmedAt(s, Trim(s), |s| - |DropLeading(s)|)
  {
    var a := DropLeading(s);
    var r := DropTrailing(a);
    assert Trim(s) == r;
    TrimmedAtCompose(s, a, r);
  }

  /** Dropping a trimmable prefix of s and then a trimmable suffix leaves a middle part of s. */
  lemma TrimmedAtCompose(s: string, a: string, r: string)
    requires |a| <= |s| && a == s[|s| - |a|..] && forall i :: 0 <= i < |s| - |a| ==> IsSpace(s[i])
    requires |r| <= |a| && r == a[..|r|] && forall i :: |r| <= i < |a| ==> IsSpace(a[i])
    ensures TrimmedAt(s, r, |s| - |a|)
  {
    var start := |s| - |a|;
    forall i | 0 <= i < |r| ensures s[start + i] == r[i] {
      assert r[i] == a[i] == s[start + i];
    }
    forall i | start + |r| <= i < |s| ensures IsSpace(s[i]) {
      assert s[i] == a[i - start];
    }
  }

  lemma TrimEnds(s: string)
    ensures Trim(s) != [] ==> !IsSpace(Trim(s)[0]) && !IsSpace(Trim(s)[|Trim(s)| - 1])
  {
    var a := DropLeading(s);
    var r := DropTrailing(a);
    if r != [] {
      assert r[0] == a[0];
    }
  }

  /** A string that neither starts nor ends with a trimmable character is its own trim. */
  lemma TrimUnpadded(s: string)
    requires s == [] || (!IsSpace(s[0]) && !IsSpace(s[|s| - 1]))
    ensures Trim(s) == s
  {
  }

  /** Trimming is idempotent. */
  lemma TrimIdempotent(s: string)
    ensures Trim(Trim(s)) == Trim(s)
  {
    TrimUnpadded(Trim(s));
  }

  /** ASCII lower-casing, the case mapping String.equalsIgnoreCase applies to ASCII letters. */
  function Lower(c: char): char {
    if 'A' <= c <= 'Z' then (c as int + 32) as char else c
  }

  /** String.equalsIgnoreCase on non-null strings. */
  function EqualsIgnoreCase(s: string, t: string): bool {
    |s| == |t| && (s == [] || (Lower(s[0]) == Lower(t[0]) && EqualsIgnoreCase(s[1..], t[1..])))
  }

  /** Two strings are equal ignoring case exactly when they have the same length and agree letter by letter after lower-casing. */
  lemma {:induction false} EqualsIgnoreCaseSpec(s: string, t: string)
    ensures EqualsIgnoreCase(s, t) <==> |s| == |t| && forall i :: 0 <= i < |s| ==> Lower(s[i]) == Lower(t[i])
  {
    if |s| == |t| && s != [] {
      EqualsIgnoreCaseSpec(s[1..], t[1..]);
      assert (forall i :: 1 <= i < |s| ==> Lower(s[i]) == Lower(t[i]))
         <==> (forall i :: 0 <= i < |s| - 1 ==> Lower(s[1..][i]) == Lower(t[1..][i]));
    }
  }

  /** Comparing ignoring case is symmetric, and every string matches itself. */
  /** s lower-cases letter by letter to lower. */
  predicate LowerCaseIs(s: string, lower: string) {
    |s| == |lower| && forall i :: 0 <= i < |s| ==> Lower(s[i]) == lower[i]
  }

  /** Comparing a lower-case literal with s ignoring case asks whether s lower-cases to that literal. */
  lemma EqualsLowerLiteral(lower: string, s: string)
    requires forall i :: 0 <= i < |lower| ==> Lower(lower[i]) == lower[i]
    ensures EqualsIgnoreCase(lower, s) <==> LowerCaseIs(s, lower)
  {
    EqualsIgnoreCaseSpec(lower, s);
  }

  lemma EqualsIgnoreCaseProperties(s: string, t: string)
    ensures EqualsIgnoreCase(s, t) <==> EqualsIgnoreCase(t, s)
    ensures EqualsIgnoreCase(s, s)
  {
    EqualsIgnoreCaseSpec(s, t);
    EqualsIgnoreCaseSpec(t, s);
    EqualsIgnoreCaseSpec(s, s);
  }

  /** String.lastIndexOf(char): the index of the last occurrence of c, or -1. */
  function LastIndexOf(s: string, c: char): (r: int)
    ensures -1 <= r < |s|
    ensures r == -1 <==> c !in s
    ensures 0 <= r ==> s[r] == c && forall j :: r < j < |s| ==> s[j] != c
  {
    if s == [] then -1
    else if s[|s| - 1] == c then |s| - 1
    else
      var r := LastIndexOf(s[..|s| - 1], c);
      assert c in s[..|s| - 1] <==> c in s by {
        assert s == s[..|s| - 1] + [s[|s| - 1]];
      }
      r
  }

  function DigitChar(d: nat): char
    requires d < 10
  {
    ('0' as int + d) as char
  }

  /** The decimal text Java's string concatenation produces for a non-negative int. */
  function Decimal(n: nat): string {
    if n < 10 then [DigitChar(n)] else Decimal(n / 10) + [DigitChar(n % 10)]
  }
}
