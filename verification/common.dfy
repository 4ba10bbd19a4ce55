/** Values and string operations shared by every component of the ledger:
    an Option for nullable columns, the JavaScript string built-ins the UI code
    relies on (`trim`, `toUpperCase`, `toLowerCase`, `includes`), counting
    occurrences in a sequence, and a partition lemma used by the per-department
    roll-ups. */
module Common {

  datatype Option<+T> = None | Some(value: T)

  /** `value || null`: an empty text field is stored as null. */
  function NullIfEmpty(s: string): (r: Option<string>)
    ensures r.None? <==> s == ""
    ensures r.Some? ==> r.value == s
  {
    if s == "" then None else Some(s)
  }

  // ---------------------------------------------------------------------------
  // Whitespace and trim
  // ---------------------------------------------------------------------------

  /** The characters that `String.prototype.trim` strips and that the regular
      expression class `\s` matches (WhiteSpace and LineTerminator of ECMAScript). */
  predicate IsJsWhitespace(c: char) {
    c == ' ' || c == '\t' || c == '\n' || c == '\r' || c == '\U{000B}' || c == '\U{000C}'
    || c == '\U{00A0}' || c == '\U{1680}' || ('\U{2000}' <= c <= '\U{200A}')
    || c == '\U{2028}' || c == '\U{2029}' || c == '\U{202F}' || c == '\U{205F}'
    || c == '\U{3000}' || c == '\U{FEFF}'
  }

  predicate AllWhitespace(s: string) {
    forall i | 0 <= i < |s| :: IsJsWhitespace(s[i])
  }

  /** Drops the leading whitespace: the result is the longest suffix of `s`
      that does not start with whitespace. */
  function TrimStart(s: string): (r: string)
    ensures |r| <= |s| && r == s[|s| - |r|..]
    ensures AllWhitespace(s[..|s| - |r|])
    ensures r == [] || !IsJsWhitespace(r[0])
  {
    if s != [] && IsJsWhitespace(s[0]) then TrimStart(s[1..]) else s
  }

  /** Drops the trailing whitespace: the result is the longest prefix of `s`
      that does not end with whitespace. */
  function TrimEnd(s: string): (r: string)
    ensures |r| <= |s| && r == s[..|r|]
    ensures AllWhitespace(s[|r|..])
    ensures r == [] || !IsJsWhitespace(r[|r| - 1])
  {
    if s != [] && IsJsWhitespace(s[|s| - 1]) then TrimEnd(s[..|s| - 1]) else s
  }

  /** `s.trim()` */
  function Trim(s: string): string {
    TrimEnd(TrimStart(s))
  }

  /** The text field holds nothing but whitespace: the test `!s.trim()`, as
      `TrimEmptyIffBlank` shows. */
  predicate IsBlank(s: string) {
    AllWhitespace(s)
  }

  /** A string trims to the empty string exactly when every character is whitespace. */
  lemma TrimEmptyIffBlank(s: string)
    ensures Trim(s) == "" <==> IsBlank(s)
  {
    var t := TrimStart(s);
    if Trim(s) == "" {
      assert TrimEnd(t) == [];
      assert AllWhitespace(t[0..]);
      assert t == [];
      forall i | 0 <= i < |s|
        ensures IsJsWhitespace(s[i])
      {
        assert s[i] == s[..|s| - |t|][i];
      }
    } else {
      assert TrimEnd(t) != [];
      assert t != [];
      assert !IsJsWhitespace(s[|s| - |t|]);
    }
  }

  // ---------------------------------------------------------------------------
  // Case mapping (ASCII letters)
  // ---------------------------------------------------------------------------

  predicate IsAsciiLower(c: char) { 'a' <= c <= 'z' }
  predicate IsAsciiUpper(c: char) { 'A' <= c <= 'Z' }

  function UpperChar(c: char): (u: char)
    ensures !IsAsciiLower(u)
    ensures IsAsciiLower(c) ==> IsAsciiUpper(u) && u as int == c as int - 32
    ensures !IsAsciiLower(c) ==> u == c
  {
    if IsAsciiLower(c) then (c as int - 32) as char else c
  }

  function LowerChar(c: char): (l: char)
    ensures !IsAsciiUpper(l)
    ensures IsAsciiUpper(c) ==> IsAsciiLower(l) && l as int == c as int + 32
    ensures !IsAsciiUpper(c) ==> l == c
  {
    if IsAsciiUpper(c) then (c as int + 32) as char else c
  }

  /** `s.toUpperCase()` */
  function ToUpper(s: string): (r: string)
    ensures |r| == |s|
    ensures forall i | 0 <= i < |s| :: r[i] == UpperChar(s[i])
  {
    seq(|s|, i requires 0 <= i < |s| => UpperChar(s[i]))
  }

  /** `s.toLowerCase()` */
  function ToLower(s: string): (r: string)
    ensures |r| == |s|
    ensures forall i | 0 <= i < |s| :: r[i] == LowerChar(s[i])
  {
    seq(|s|, i requires 0 <= i < |s| => LowerChar(s[i]))
  }

  /** Upper-casing twice is upper-casing once, so a code typed in any mix of
      cases and its upper-cased form denote the same key. */
  lemma ToUpperIdempotent(s: string)
    ensures ToUpper(ToUpper(s)) == ToUpper(s)
  {
    var u := ToUpper(s);
    forall i | 0 <= i < |s|
      ensures ToUpper(u)[i] == u[i]
    {
      assert !IsAsciiLower(u[i]);
    }
  }

  lemma ToLowerIdempotent(s: string)
    ensures ToLower(ToLower(s)) == ToLower(s)
  {
    var l := ToLower(s);
    forall i | 0 <= i < |s|
      ensures ToLower(l)[i] == l[i]
    {
      assert !IsAsciiUpper(l[i]);
    }
  }

  // ---------------------------------------------------------------------------
  // Substring search
  // ---------------------------------------------------------------------------

  /** `s.includes(t)` */
  predicate Contains(s: string, t: string)
    decreases |s|
  {
    t <= s || (s != [] && Contains(s[1..], t))
  }

  /** The reference definition of substring: `t` occurs at some offset of `s`. */
  ghost predicate OccursAt(s: string, t: string, k: int) {
    0 <= k && k + |t| <= |s| && s[k..k + |t|] == t
  }

  lemma {:induction false} ContainsIffOccurs(s: string, t: string)
    ensures Contains(s, t) <==> exists k :: OccursAt(s, t, k)
    decreases |s|
  {
    if t <= s {
      assert s[0..|t|] == t;
      assert OccursAt(s, t, 0);
    } else if s == [] {
      assert t != [];
    } else {
      ContainsIffOccurs(s[1..], t);
      if Contains(s[1..], t) {
        var k :| OccursAt(s[1..], t, k);
        assert s[1..][k..k + |t|] == s[k + 1..k + 1 + |t|];
        assert OccursAt(s, t, k + 1);
      }
      assert !OccursAt(s, t, 0) by {
        if |t| <= |s| { assert s[0..|t|] == s[..|t|]; }
      }
      if k :| OccursAt(s, t, k) {
        assert s[1..][k - 1..k - 1 + |t|] == s[k..k + |t|];
        assert OccursAt(s[1..], t, k - 1);
      }
    }
  }

  /** Every string includes the empty string. */
  lemma ContainsEmpty(s: string)
    ensures Contains(s, "")
  {
  }

  // ---------------------------------------------------------------------------
  // Occurrence counting and partitions
  // ---------------------------------------------------------------------------

  /** How many entries of `s` equal `d`. */
  function Occurrences<T(==)>(s: seq<T>, d: T): (n: nat)
    ensures n <= |s|
    ensures d !in s ==> n == 0
  {
    if s == [] then 0
    else Occurrences(s[..|s| - 1], d) + (if s[|s| - 1] == d then 1 else 0)
  }

  lemma OccurrencesLast<T>(s: seq<T>, d: T)
    requires s != []
    ensures Occurrences(s, d) == Occurrences(s[..|s| - 1], d) + (if s[|s| - 1] == d then 1 else 0)
  {
  }

  lemma OccurrencesSnoc<T>(s: seq<T>, x: T)
    ensures forall d :: Occurrences(s + [x], d) == Occurrences(s, d) + (if x == d then 1 else 0)
  {
    assert (s + [x])[..|s|] == s;
  }

  predicate Distinct<T(==)>(s: seq<T>) {
    forall i, j | 0 <= i < j < |s| :: s[i] != s[j]
  }

  /** The distinct entries of `s` in order of first appearance: the order in
      which a dictionary filled from `s` acquires its keys. */
  function FirstAppearance<T(==)>(s: seq<T>): (r: seq<T>)
    ensures forall d | d in r :: d in s
    ensures forall d | d in s :: d in r
    ensures Distinct(r)
  {
    if s == [] then []
    else
      var r := FirstAppearance(s[..|s| - 1]);
      assert forall d | d in s[..|s| - 1] :: d in s;
      assert forall d | d in s :: d in s[..|s| - 1] || d == s[|s| - 1];
      if s[|s| - 1] in r then r else r + [s[|s| - 1]]
  }

  lemma FirstAppearanceSnoc<T>(s: seq<T>, x: T)
    ensures FirstAppearance(s + [x])
            == if x in FirstAppearance(s) then FirstAppearance(s) else FirstAppearance(s) + [x]
  {
    assert (s + [x])[..|s|] == s;
  }

  /** Sum, over the keys `keys`, of the number of occurrences of each in `s`. */
  function SumOccurrences<T(==)>(keys: seq<T>, s: seq<T>): nat {
    if keys == [] then 0 else Occurrences(s, keys[0]) + SumOccurrences(keys[1..], s)
  }

  lemma {:induction false} SumOccurrencesAppend<T>(keys: seq<T>, s: seq<T>, x: T)
    requires Distinct(keys)
    ensures SumOccurrences(keys, s + [x]) == SumOccurrences(keys, s) + (if x in keys then 1 else 0)
  {
    assert (s + [x])[..|s + [x]| - 1] == s;
    if keys != [] {
      assert Distinct(keys[1..]);
      SumOccurrencesAppend(keys[1..], s, x);
      assert x in keys <==> x == keys[0] || x in keys[1..];
      assert x == keys[0] ==> x !in keys[1..];
    }
  }

  lemma {:induction false} SumOccurrencesSnoc<T>(keys: seq<T>, s: seq<T>, d: T)
    ensures SumOccurrences(keys + [d], s) == SumOccurrences(keys, s) + Occurrences(s, d)
  {
    if keys == [] {
      assert [d][1..] == [];
    } else {
      assert (keys + [d])[1..] == keys[1..] + [d];
      SumOccurrencesSnoc(keys[1..], s, d);
    }
  }

  /** Grouping the entries of `s` by value and adding up the group sizes gives
      back the length of `s`: every entry lands in exactly one group. */
  lemma {:induction false} PartitionCount<T>(s: seq<T>)
    ensures SumOccurrences(FirstAppearance(s), s) == |s|
  {
    if s != [] {
      var p, x := s[..|s| - 1], s[|s| - 1];
      assert s == p + [x];
      var r := FirstAppearance(p);
      PartitionCount(p);
      SumOccurrencesAppend(r, p, x);
      if x !in r {
        SumOccurrencesSnoc(r, s, x);
        assert Occurrences(p, x) == 0;
      }
    }
  }

  /** A sequence without repetitions has as many elements as its set. */
  lemma {:induction false} DistinctCard<T>(s: seq<T>)
    requires Distinct(s)
    ensures |set x | x in s| == |s|
  {
    if s != [] {
      var p, x := s[..|s| - 1], s[|s| - 1];
      assert s == p + [x];
      DistinctCard(p);
      assert (set y | y in s) == (set y | y in p) + {x};
      assert x !in p;
    }
  }

  /** If every element of one repetition-free sequence appears in another
      repetition-free sequence, the first is no longer than the second. */
  lemma DistinctSubsetLength<T>(a: seq<T>, b: seq<T>)
    requires Distinct(a) && Distinct(b)
    requires forall x | x in a :: x in b
    ensures |a| <= |b|
  {
    DistinctCard(a);
    DistinctCard(b);
    var A, B := set x | x in a, set x | x in b;
    assert A <= B;
    assert B == A + (B - A);
    assert A !! (B - A);
  }
}
