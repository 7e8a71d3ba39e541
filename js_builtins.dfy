/** The JavaScript built-ins the extension's three scripts lean on, stated on
    Dafny values: `String.prototype.trim`, `Number.prototype.toString` for whole
    numbers, `String.prototype.padStart`, a regular expression made of literal
    alternatives (a substring search), `Array.prototype.filter` in the two ways
    the popup calls it, and the truthiness test on an optional tab id. */
module JsBuiltins {

  /** A value that may be absent (`undefined`/`null` on the JavaScript side). */
  datatype Option<+T> = None | Some(value: T)

  // ---------------------------------------------------------------------------
  // String.prototype.trim

  /** The characters ECMAScript's trim strips: WhiteSpace (including every
      Zs space separator) and LineTerminator. */
  predicate IsJsWhitespace(c: char) {
    || c == '\t' || c == '\n' || c == '\U{B}' || c == '\U{C}' || c == '\r'
    || c == ' ' || c == '\U{A0}' || c == '\U{1680}'
    || ('\U{2000}' <= c <= '\U{200A}')
    || c == '\U{2028}' || c == '\U{2029}' || c == '\U{202F}' || c == '\U{205F}'
    || c == '\U{3000}' || c == '\U{FEFF}'
  }

  predicate Blank(s: string) {
    forall k :: 0 <= k < |s| ==> IsJsWhitespace(s[k])
  }

  /** Drops the leading whitespace: the result is a suffix of `s` and what was
      dropped is blank. */
  function TrimStart(s: string): (r: string)
    ensures |r| <= |s| && r == s[|s| - |r|..]
    ensures Blank(s[..|s| - |r|])
    ensures r == [] || !IsJsWhitespace(r[0])
    decreases |s|
  {
    if s != [] && IsJsWhitespace(s[0]) then
      var r := TrimStart(s[1..]);
      BlankStep(s, |s| - |r|);
      r
    else
      s
  }

  /** A blank head of `s[1..]` after a whitespace `s[0]` is a blank head of `s`. */
  lemma BlankStep(s: string, i: nat)
    requires 1 <= i <= |s| && IsJsWhitespace(s[0]) && Blank(s[1..][..i - 1])
    ensures Blank(s[..i]) && s[1..][i - 1..] == s[i..]
  {
    assert s[..i] == [s[0]] + s[1..][..i - 1];
  }

  /** Drops the trailing whitespace: the result is a prefix of `s` and what was
      dropped is blank. */
  function TrimEnd(s: string): (r: string)
    ensures |r| <= |s| && r == s[..|r|]
    ensures Blank(s[|r|..])
    ensures r == [] || !IsJsWhitespace(r[|r| - 1])
    decreases |s|
  {
    if s != [] && IsJsWhitespace(s[|s| - 1]) then
      var r := TrimEnd(s[..|s| - 1]);
      BlankStepBack(s, |r|);
      r
    else
      s
  }

  /** `r` is `s` with its leading and trailing whitespace cut off: a slice of
      `s` between two blank stretches, neither starting nor ending with
      whitespace. */
  predicate TrimmedFrom(s: string, r: string) {
    && (exists i :: 0 <= i <= |s| - |r| && r == s[i..i + |r|] && Blank(s[..i]) && Blank(s[i + |r|..]))
    && (r == [] || (!IsJsWhitespace(r[0]) && !IsJsWhitespace(r[|r| - 1])))
  }

  /** A blank tail of the init of `s` before a whitespace last character is a
      blank tail of `s`. */
  lemma BlankStepBack(s: string, i: nat)
    requires i < |s| && IsJsWhitespace(s[|s| - 1]) && Blank(s[..|s| - 1][i..])
    ensures Blank(s[i..]) && s[..|s| - 1][..i] == s[..i]
  {
    assert s[i..] == s[..|s| - 1][i..] + [s[|s| - 1]];
  }

  /** `s.trim()`. It is empty exactly when `s` is blank. */
  function Trim(s: string): (r: string)
    ensures TrimmedFrom(s, r)
    ensures r == [] <==> Blank(s)
  {
    var t := TrimStart(s);
    var r := TrimEnd(t);
    TrimSlice(s, t, r);
    r
  }

  /** What the two halves of trimming leave: `t` is `s` without its leading
      whitespace and `r` is `t` without its trailing whitespace. */
  lemma TrimSlice(s: string, t: string, r: string)
    requires |t| <= |s| && t == s[|s| - |t|..] && Blank(s[..|s| - |t|])
    requires t == [] || !IsJsWhitespace(t[0])
    requires |r| <= |t| && r == t[..|r|] && Blank(t[|r|..])
    requires r == [] || !IsJsWhitespace(r[|r| - 1])
    ensures TrimmedFrom(s, r)
    ensures r == [] <==> Blank(s)
  {
    TrimSliceWitness(s, t, r);
    TrimSliceBlank(s, t, r);
  }

  lemma TrimSliceWitness(s: string, t: string, r: string)
    requires |t| <= |s| && t == s[|s| - |t|..] && Blank(s[..|s| - |t|])
    requires t == [] || !IsJsWhitespace(t[0])
    requires |r| <= |t| && r == t[..|r|] && Blank(t[|r|..])
    requires r == [] || !IsJsWhitespace(r[|r| - 1])
    ensures TrimmedFrom(s, r)
  {
    var i := |s| - |t|;
    assert s[i..i + |r|] == r;
    assert Blank(s[i + |r|..]) by {
      assert s[i + |r|..] == t[|r|..];
    }
    assert r == [] || !IsJsWhitespace(r[0]) by {
      if r != [] {
        assert r[0] == t[0];
      }
    }
    TrimmedAt(s, r, i);
  }

  /** The witness for TrimmedFrom: `r` sits at `i` between two blank runs. */
  lemma TrimmedAt(s: string, r: string, i: nat)
    requires i <= |s| - |r| && r == s[i..i + |r|] && Blank(s[..i]) && Blank(s[i + |r|..])
    requires r == [] || (!IsJsWhitespace(r[0]) && !IsJsWhitespace(r[|r| - 1]))
    ensures TrimmedFrom(s, r)
  {
  }

  lemma TrimSliceBlank(s: string, t: string, r: string)
    requires |t| <= |s| && t == s[|s| - |t|..] && Blank(s[..|s| - |t|])
    requires t == [] || !IsJsWhitespace(t[0])
    requires |r| <= |t| && r == t[..|r|] && Blank(t[|r|..])
    ensures r == [] <==> Blank(s)
  {
    var i := |s| - |t|;
    if r != [] {
      assert s[i] == t[0];
    } else {
      assert t == [];
      assert s == s[..i];
    }
  }

  /** A string that neither starts nor ends with whitespace is its own trim. */
  lemma TrimUnpadded(s: string)
    requires s == [] || (!IsJsWhitespace(s[0]) && !IsJsWhitespace(s[|s| - 1]))
    ensures Trim(s) == s
  {
  }

  /** Trimming twice is trimming once. */
  lemma TrimIdempotent(s: string)
    ensures Trim(Trim(s)) == Trim(s)
  {
    var t := Trim(s);
    assert t == [] || (!IsJsWhitespace(t[0]) && !IsJsWhitespace(t[|t| - 1]));
    TrimUnpadded(t);
  }

  // ---------------------------------------------------------------------------
  // Number.prototype.toString for whole numbers

  predicate IsDigit(c: char) {
    '0' <= c <= '9'
  }

  predicate AllDigits(s: string) {
    forall k :: 0 <= k < |s| ==> IsDigit(s[k])
  }

  function DigitValue(c: char): nat
    requires IsDigit(c)
  {
    c as int - '0' as int
  }

  function DigitChar(d: nat): (c: char)
    requires d < 10
    ensures IsDigit(c) && DigitValue(c) == d
  {
    ('0' as int + d) as char
  }

  /** The number a string of decimal digits denotes (most significant first). */
  function DigitsValue(s: string): nat
    requires AllDigits(s)
    decreases |s|
  {
    if s == [] then 0 else DigitsValue(s[..|s| - 1]) * 10 + DigitValue(s[|s| - 1])
  }

  /** `n.toString()` for a whole number `n`: its decimal digits, with no leading
      zero, denoting `n`. */
  function NatToString(n: nat): (r: string)
    ensures |r| >= 1 && AllDigits(r)
    ensures DigitsValue(r) == n
    ensures r[0] == '0' ==> r == "0"
    ensures n < 100 ==> |r| <= 2
    decreases n
  {
    if n < 10 then [DigitChar(n)]
    else
      var r := NatToString(n / 10) + [DigitChar(n % 10)];
      assert r[..|r| - 1] == NatToString(n / 10);
      r
  }

  /** A leading zero does not change the number a digit string denotes. */
  lemma {:induction false} LeadingZeroValue(s: string)
    requires AllDigits(s)
    ensures AllDigits("0" + s) && DigitsValue("0" + s) == DigitsValue(s)
    decreases |s|
  {
    if s != [] {
      assert ("0" + s)[..|s|] == "0" + s[..|s| - 1];
      LeadingZeroValue(s[..|s| - 1]);
    }
  }

  // ---------------------------------------------------------------------------
  // String.prototype.padStart

  /** `s.padStart(targetLength, fill)` for a one-character `fill`: `s` preceded
      by as many `fill` characters as it takes to reach `targetLength`. */
  function PadStart(s: string, targetLength: nat, fill: char): (r: string)
    ensures |r| == if |s| >= targetLength then |s| else targetLength
    ensures r[|r| - |s|..] == s
    ensures forall k :: 0 <= k < |r| - |s| ==> r[k] == fill
  {
    if |s| >= targetLength then s else seq(targetLength - |s|, _ => fill) + s
  }

  // ---------------------------------------------------------------------------
  // Substring search (RegExp.prototype.test on literal alternatives)

  predicate OccursAt(s: string, p: string, i: int) {
    0 <= i <= |s| - |p| && s[i..i + |p|] == p
  }

  /** Whether `p` occurs anywhere in `s`. */
  function Contains(s: string, p: string): (r: bool)
    ensures r <==> exists i :: OccursAt(s, p, i)
    decreases |s|
  {
    if |s| < |p| then false
    else if s[..|p|] == p then assert OccursAt(s, p, 0); true
    else ContainsStep(s, p); Contains(s[1..], p)
  }

  /** Occurrences in `s` past its first position are the occurrences in `s[1..]`,
      shifted by one. */
  lemma ContainsStep(s: string, p: string)
    requires |s| >= |p| && s[..|p|] != p
    ensures (exists i :: OccursAt(s, p, i)) <==> (exists i :: OccursAt(s[1..], p, i))
  {
    if i :| OccursAt(s, p, i) {
      assert i != 0;
      assert s[1..][i - 1..i - 1 + |p|] == s[i..i + |p|];
      assert OccursAt(s[1..], p, i - 1);
    }
    if i :| OccursAt(s[1..], p, i) {
      assert s[i + 1..i + 1 + |p|] == s[1..][i..i + |p|];
      assert OccursAt(s, p, i + 1);
    }
  }

  // ---------------------------------------------------------------------------
  // Array.prototype.filter

  predicate NoDuplicates<T(==)>(xs: seq<T>) {
    forall i, j :: 0 <= i < j < |xs| ==> xs[i] != xs[j]
  }

  /** Appending a value not yet present keeps a list free of duplicates. */
  lemma AppendFresh<T>(xs: seq<T>, x: T)
    requires NoDuplicates(xs) && x !in xs
    ensures NoDuplicates(xs + [x])
  {
    forall i, j | 0 <= i < j < |xs| + 1 ensures (xs + [x])[i] != (xs + [x])[j] {
      assert (xs + [x])[i] == xs[i];
      if j == |xs| {
        assert (xs + [x])[j] == x;
      } else {
        assert (xs + [x])[j] == xs[j];
      }
    }
  }

  /** `xs.filter(y => y !== x)`: every occurrence of `x` removed, the rest kept
      in order. */
  function RemoveAll<T(==,!new)>(xs: seq<T>, x: T): (r: seq<T>)
    ensures forall y :: y in r <==> y in xs && y != x
    ensures |r| <= |xs|
    ensures x !in xs ==> r == xs
    ensures xs != [] && xs[0] != x ==> r != [] && r[0] == xs[0]
    decreases |xs|
  {
    if xs == [] then []
    else
      var rest := RemoveAll(xs[1..], x);
      assert xs == [xs[0]] + xs[1..];
      if xs[0] == x then rest else [xs[0]] + rest
  }

  /** Filtering keeps every other element as often as it occurs and drops
      every copy of `x`. */
  lemma {:induction false} RemoveAllCounts<T(!new)>(xs: seq<T>, x: T)
    ensures multiset(RemoveAll(xs, x)) == multiset(xs)[x := 0]
    decreases |xs|
  {
    if xs != [] {
      RemoveAllCounts(xs[1..], x);
      assert xs == [xs[0]] + xs[1..];
      assert multiset(xs) == multiset{xs[0]} + multiset(xs[1..]);
    }
  }

  /** Filtering works in list order: the filter of a concatenation is the
      concatenation of the filters. */
  lemma {:induction false} RemoveAllConcat<T(!new)>(a: seq<T>, b: seq<T>, x: T)
    ensures RemoveAll(a + b, x) == RemoveAll(a, x) + RemoveAll(b, x)
    decreases |a|
  {
    if a == [] {
      assert a + b == b;
    } else {
      var ab := a + b;
      assert ab[0] == a[0] && ab[1..] == a[1..] + b;
      RemoveAllConcat(a[1..], b, x);
    }
  }

  /** A single element is kept exactly when it is not `x`. */
  lemma RemoveAllSingle<T(!new)>(y: T, x: T)
    ensures RemoveAll([y], x) == (if y == x then [] else [y])
  {
    assert [y][1..] == [];
  }

  /** Removing a name that occurs once, at position `k`, is cutting position `k`
      out: the other names keep their order. */
  lemma {:induction false} RemoveAllUnique<T(!new)>(xs: seq<T>, k: nat)
    requires NoDuplicates(xs) && k < |xs|
    ensures RemoveAll(xs, xs[k]) == xs[..k] + xs[k + 1..]
    decreases k
  {
    assert xs == [xs[0]] + xs[1..];
    if k == 0 {
      assert xs[k] !in xs[1..];
    } else {
      assert xs[0] != xs[k];
      RemoveAllUnique(xs[1..], k - 1);
      assert xs[1..][k - 1] == xs[k];
      assert xs[..k] == [xs[0]] + xs[1..][..k - 1];
    }
  }

  /** Filtering keeps a list free of duplicates. */
  lemma {:induction false} RemoveAllNoDuplicates<T(!new)>(xs: seq<T>, x: T)
    requires NoDuplicates(xs)
    ensures NoDuplicates(RemoveAll(xs, x))
    decreases |xs|
  {
    if xs != [] {
      RemoveAllNoDuplicates(xs[1..], x);
      var rest := RemoveAll(xs[1..], x);
      assert xs[0] !in xs[1..];
      assert xs[0] !in rest;
    }
  }

  /** `xs.filter((_, index) => index !== n)`: position `n` cut out, or `xs`
      itself when `n` is out of range. */
  function RemoveAt<T>(xs: seq<T>, n: nat): (r: seq<T>)
    ensures n < |xs| ==> |r| == |xs| - 1
    ensures n < |xs| ==> forall k :: 0 <= k < n ==> r[k] == xs[k]
    ensures n < |xs| ==> forall k :: n <= k < |r| ==> r[k] == xs[k + 1]
    ensures n < |xs| ==> multiset(r) == multiset(xs) - multiset{xs[n]}
    ensures n >= |xs| ==> r == xs
  {
    if n < |xs| then
      assert xs == xs[..n] + [xs[n]] + xs[n + 1..];
      xs[..n] + xs[n + 1..]
    else xs
  }

  // ---------------------------------------------------------------------------
  // Truthiness

  /** `id` as a JavaScript condition (`tab?.id`): present and not 0. */
  predicate TruthyId(id: Option<int>) {
    id.Some? && id.value != 0
  }
}
