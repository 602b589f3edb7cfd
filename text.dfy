/**
 * The .NET string operations the reconciliation code relies on, written out:
 * `char.IsWhiteSpace`, `Trim`, `ToLower`/`ToUpper` (restricted to ASCII and
 * Latin-1 letters), `Contains`, `StartsWith`, `string.Join`, `Split(char)`,
 * `int.ToString()` and an ordinal ordering with a sort for LINQ's `OrderBy`.
 */
module Text {

  /** The characters for which `char.IsWhiteSpace` holds (the Unicode White_Space set). */
  predicate IsWhiteSpace(c: char) {
    c == ' ' || ('\t' <= c <= '\r') || c == '\U{85}' || c == '\U{A0}' || c == '\U{1680}'
    || ('\U{2000}' <= c <= '\U{200A}') || c == '\U{2028}' || c == '\U{2029}'
    || c == '\U{202F}' || c == '\U{205F}' || c == '\U{3000}'
  }

  /** `string.IsNullOrWhiteSpace`, with null already read as "". */
  predicate IsBlank(s: string) {
    forall i :: 0 <= i < |s| ==> IsWhiteSpace(s[i])
  }

  /** The number of white-space characters `s` starts with. */
  function LeadingSpace(s: string): (n: nat)
    ensures n <= |s|
  {
    if s != [] && IsWhiteSpace(s[0]) then 1 + LeadingSpace(s[1..]) else 0
  }

  /** The number of white-space characters `s` ends with. */
  function TrailingSpace(s: string): (n: nat)
    ensures n <= |s|
  {
    if s != [] && IsWhiteSpace(s[|s| - 1]) then 1 + TrailingSpace(s[..|s| - 1]) else 0
  }

  /** The leading run is all white space and stops at the first other character. */
  lemma {:induction false} LeadingSpaceMeaning(s: string)
    ensures forall i :: 0 <= i < LeadingSpace(s) ==> IsWhiteSpace(s[i])
    ensures LeadingSpace(s) == |s| || !IsWhiteSpace(s[LeadingSpace(s)])
  {
    if s != [] && IsWhiteSpace(s[0]) {
      LeadingSpaceMeaning(s[1..]);
    }
  }

  /** The trailing run is all white space and stops at the last other character. */
  lemma {:induction false} TrailingSpaceMeaning(s: string)
    ensures forall i :: |s| - TrailingSpace(s) <= i < |s| ==> IsWhiteSpace(s[i])
    ensures TrailingSpace(s) == |s| || !IsWhiteSpace(s[|s| - 1 - TrailingSpace(s)])
  {
    if s != [] && IsWhiteSpace(s[|s| - 1]) {
      TrailingSpaceMeaning(s[..|s| - 1]);
    }
  }

  /** `String.TrimStart()`. */
  function TrimStart(s: string): (r: string)
    ensures |r| <= |s|
  {
    s[LeadingSpace(s)..]
  }

  /** `String.TrimEnd()`. */
  function TrimEnd(s: string): (r: string)
    ensures |r| <= |s|
  {
    s[..|s| - TrailingSpace(s)]
  }

  /** `String.Trim()`: what is left of `s` once the white space at both ends is removed. */
  function Trim(s: string): (r: string)
    ensures |r| <= |s|
  {
    TrimEnd(TrimStart(s))
  }

  /** What `TrimStart` removes is white space, and what it keeps does not start with white space. */
  lemma TrimStartMeaning(s: string)
    ensures TrimStart(s) == [] || !IsWhiteSpace(TrimStart(s)[0])
    ensures forall i :: 0 <= i < |s| - |TrimStart(s)| ==> IsWhiteSpace(s[i])
  {
    LeadingSpaceMeaning(s);
  }

  /** What `TrimEnd` removes is white space, and what it keeps does not end with white space. */
  lemma TrimEndMeaning(s: string)
    ensures TrimEnd(s) == [] || !IsWhiteSpace(TrimEnd(s)[|TrimEnd(s)| - 1])
    ensures forall i :: |TrimEnd(s)| <= i < |s| ==> IsWhiteSpace(s[i])
    ensures TrimEnd(s) == [] || TrimEnd(s)[0] == s[0]
  {
    TrailingSpaceMeaning(s);
  }

  /**
   * A trimmed string neither starts nor ends with white space, and is empty
   * exactly when `s` is blank.
   */
  lemma TrimMeaning(s: string)
    ensures Trim(s) == [] || (!IsWhiteSpace(Trim(s)[0]) && !IsWhiteSpace(Trim(s)[|Trim(s)| - 1]))
    ensures Trim(s) == [] <==> IsBlank(s)
  {
    var t := TrimStart(s);
    TrimStartMeaning(s);
    TrimEndMeaning(t);
    if Trim(s) == [] {
      assert t == [];
    }
  }

  /** A string without white space at its ends is its own trim. */
  lemma TrimOfTrimmed(s: string)
    requires s == [] || (!IsWhiteSpace(s[0]) && !IsWhiteSpace(s[|s| - 1]))
    ensures Trim(s) == s
  {
    if s != [] {
      assert LeadingSpace(s) == 0;
      assert TrailingSpace(s) == 0;
    }
  }

  /** Trimming is idempotent: a trimmed string has nothing left to trim. */
  lemma TrimIdempotent(s: string)
    ensures Trim(Trim(s)) == Trim(s)
  {
    TrimMeaning(s);
    TrimOfTrimmed(Trim(s));
  }

  /** Every character of a trimmed string comes from the string. */
  lemma TrimSubsequence(s: string)
    ensures forall i :: 0 <= i < |Trim(s)| ==> Trim(s)[i] in s
  {
    var t := TrimStart(s);
    assert forall i :: 0 <= i < |t| ==> t[i] == s[LeadingSpace(s) + i];
    assert forall i :: 0 <= i < |TrimEnd(t)| ==> TrimEnd(t)[i] == t[i];
  }

  /** A trimmed string with one space put in front trims back to itself. */
  lemma TrimAfterSpace(t: string)
    requires Trim(t) == t
    ensures Trim(" " + t) == t
  {
    var s := " " + t;
    assert s[1..] == t;
    TrimMeaning(t);
    if t == [] {
      assert LeadingSpace(s) == 1;
      assert TrimStart(s) == [];
    } else {
      assert LeadingSpace(t) == 0;
      assert LeadingSpace(s) == 1;
      assert TrimStart(s) == t;
      assert TrimStart(t) == t;
    }
  }

  /** A string with white space at either end is not its own trim. */
  lemma PaddedIsNotTrimmed(s: string)
    requires s != [] && (IsWhiteSpace(s[0]) || IsWhiteSpace(s[|s| - 1]))
    ensures Trim(s) != s
  {
    TrimMeaning(s);
  }

  /** The invariant-culture lower case of an ASCII or Latin-1 capital letter; other characters are kept. */
  function LowerChar(c: char): (d: char)
    ensures IsWhiteSpace(d) <==> IsWhiteSpace(c)
    ensures 'A' <= c <= 'Z' ==> d == (c as int + 32) as char
  {
    if 'A' <= c <= 'Z' || ('\U{C0}' <= c <= '\U{DE}' && c != '\U{D7}') then (c as int + 32) as char else c
  }

  /** The invariant-culture upper case of an ASCII or Latin-1 small letter; other characters are kept. */
  function UpperChar(c: char): (d: char)
    ensures 'a' <= c <= 'z' ==> d == (c as int - 32) as char
    ensures !('a' <= c <= 'z') && c < '\U{E0}' ==> d == c
  {
    if 'a' <= c <= 'z' || ('\U{E0}' <= c <= '\U{FE}' && c != '\U{F7}') then (c as int - 32) as char else c
  }

  /** `String.ToLower()`, character by character. */
  function ToLower(s: string): (r: string)
    ensures |r| == |s|
  {
    if s == [] then [] else [LowerChar(s[0])] + ToLower(s[1..])
  }

  /** `String.ToUpper()`, character by character. */
  function ToUpper(s: string): (r: string)
    ensures |r| == |s|
  {
    if s == [] then [] else [UpperChar(s[0])] + ToUpper(s[1..])
  }

  /** Each character of the lower-cased string is the lower case of the character at the same place. */
  lemma {:induction false} ToLowerMeaning(s: string)
    ensures forall i :: 0 <= i < |s| ==> ToLower(s)[i] == LowerChar(s[i])
  {
    if s != [] {
      ToLowerMeaning(s[1..]);
    }
  }

  /** Each character of the upper-cased string is the upper case of the character at the same place. */
  lemma {:induction false} ToUpperMeaning(s: string)
    ensures forall i :: 0 <= i < |s| ==> ToUpper(s)[i] == UpperChar(s[i])
  {
    if s != [] {
      ToUpperMeaning(s[1..]);
    }
  }

  /** Lower-casing is idempotent. */
  lemma ToLowerIdempotent(s: string)
    ensures ToLower(ToLower(s)) == ToLower(s)
  {
    ToLowerMeaning(s);
    ToLowerMeaning(ToLower(s));
  }

  /** The normalised key of a software name: trimmed, then lower-cased. */
  function Normalize(s: string): (r: string)
    ensures |r| <= |s|
  {
    ToLower(Trim(s))
  }

  /** A normalised key is empty exactly when the name is blank, and has no white space at its ends. */
  lemma NormalizeMeaning(s: string)
    ensures Normalize(s) == [] <==> IsBlank(s)
    ensures Normalize(s) == [] || (!IsWhiteSpace(Normalize(s)[0]) && !IsWhiteSpace(Normalize(s)[|Normalize(s)| - 1]))
  {
    TrimMeaning(s);
    ToLowerMeaning(Trim(s));
  }

  /** Normalising a normalised key changes nothing. */
  lemma NormalizeIdempotent(s: string)
    ensures Normalize(Normalize(s)) == Normalize(s)
  {
    NormalizeMeaning(s);
    TrimOfTrimmed(Normalize(s));
    ToLowerIdempotent(Trim(s));
  }

  /** `s.StartsWith(p)`, ordinal. */
  predicate StartsWith(s: string, p: string) {
    |p| <= |s| && s[..|p|] == p
  }

  /** `s.Contains(sub)`, ordinal; every string contains "". */
  predicate Contains(s: string, sub: string)
    decreases |s|
  {
    StartsWith(s, sub) || (s != [] && Contains(s[1..], sub))
  }

  lemma ContainsChar(s: string, c: char)
    ensures Contains(s, [c]) <==> c in s
  {
    if s != [] {
      ContainsChar(s[1..], c);
      assert c in s <==> s[0] == c || c in s[1..];
    }
  }

  /** `string.Join(sep, parts)`. */
  function Join(sep: string, parts: seq<string>): (r: string)
    ensures parts == [] ==> r == []
    ensures |parts| == 1 ==> r == parts[0]
  {
    if parts == [] then []
    else if |parts| == 1 then parts[0]
    else parts[0] + sep + Join(sep, parts[1..])
  }

  /** A join of pieces free of `c`, with a separator free of `c`, is free of `c`. */
  lemma {:induction false} JoinAvoids(sep: string, parts: seq<string>, c: char)
    requires c !in sep
    requires forall k :: 0 <= k < |parts| ==> c !in parts[k]
    ensures c !in Join(sep, parts)
    decreases |parts|
  {
    if |parts| > 1 {
      JoinAvoids(sep, parts[1..], c);
    }
  }

  /** The line terminator, `Environment.NewLine` and the one `StringBuilder.AppendLine` writes. */
  const NewLine: string := "\n"

  /** The position of the first `c` in `s`. */
  function IndexOf(s: string, c: char): (i: nat)
    requires c in s
    ensures i < |s| && s[i] == c && c !in s[..i]
  {
    if s[0] == c then 0 else 1 + IndexOf(s[1..], c)
  }

  /** `s.Split(c)`: the pieces between the occurrences of `c`; there is always at least one. */
  function Split(s: string, c: char): (r: seq<string>)
    ensures |r| >= 1
    ensures forall k :: 0 <= k < |r| ==> c !in r[k]
    decreases |s|
  {
    if c !in s then [s]
    else
      var i := IndexOf(s, c);
      [s[..i]] + Split(s[i + 1..], c)
  }

  /** Joining a piece in front of at least one other puts the separator between them. */
  lemma JoinCons(sep: string, p: string, rest: seq<string>)
    requires |rest| >= 1
    ensures Join(sep, [p] + rest) == p + sep + Join(sep, rest)
  {
    assert ([p] + rest)[1..] == rest;
  }

  /** Joining the pieces of a split with the separator gives back the string. */
  lemma {:induction false} JoinSplit(s: string, c: char)
    ensures Join([c], Split(s, c)) == s
    decreases |s|
  {
    if c in s {
      var i := IndexOf(s, c);
      var tail := s[i + 1..];
      var rest := Split(tail, c);
      JoinSplit(tail, c);
      JoinCons([c], s[..i], rest);
      assert s == s[..i] + [c] + tail;
    }
  }

  /** The first separator of `p + [c] + rest`, with `p` free of `c`, is right after `p`. */
  lemma {:induction false} IndexAfterPiece(p: string, c: char, rest: string)
    requires c !in p
    ensures IndexOf(p + [c] + rest, c) == |p|
  {
    var s := p + [c] + rest;
    if p != [] {
      assert s[1..] == p[1..] + [c] + rest;
      IndexAfterPiece(p[1..], c, rest);
    }
  }

  /** Splitting a piece free of `c` followed by `c` peels that piece off. */
  lemma SplitCons(p: string, c: char, rest: string)
    requires c !in p
    ensures Split(p + [c] + rest, c) == [p] + Split(rest, c)
  {
    var s := p + [c] + rest;
    assert s[|p|] == c;
    IndexAfterPiece(p, c, rest);
    assert s[..|p|] == p && s[|p| + 1..] == rest;
  }

  /** Splitting a join of separator-free pieces recovers the pieces. */
  lemma {:induction false} SplitJoin(parts: seq<string>, c: char)
    requires |parts| >= 1
    requires forall k :: 0 <= k < |parts| ==> c !in parts[k]
    ensures Split(Join([c], parts), c) == parts
    decreases |parts|
  {
    if |parts| > 1 {
      var rest := parts[1..];
      assert parts == [parts[0]] + rest;
      JoinCons([c], parts[0], rest);
      SplitCons(parts[0], c, Join([c], rest));
      SplitJoin(rest, c);
    }
  }

  function NatToString(n: nat): (r: string)
    ensures |r| >= 1
    ensures forall i :: 0 <= i < |r| ==> '0' <= r[i] <= '9'
  {
    var d := ['0' + (n % 10) as char];
    if n < 10 then d else NatToString(n / 10) + d
  }

  /** `int.ToString()` with the invariant culture: decimal digits, led by '-' when negative. */
  function IntToString(n: int): (r: string)
    ensures |r| >= 1
    ensures n < 0 <==> r[0] == '-'
  {
    if n < 0 then "-" + NatToString(-n) else NatToString(n)
  }

  /** Ordinal comparison: `a` sorts no later than `b`, character code by character code. */
  predicate Leq(a: string, b: string) {
    a == [] || (b != [] && (a[0] < b[0] || (a[0] == b[0] && Leq(a[1..], b[1..]))))
  }

  lemma {:induction false} LeqTotal(a: string, b: string)
    ensures Leq(a, b) || Leq(b, a)
  {
    if a != [] && b != [] && a[0] == b[0] {
      LeqTotal(a[1..], b[1..]);
    }
  }

  lemma {:induction false} LeqTransitive(a: string, b: string, c: string)
    requires Leq(a, b) && Leq(b, c)
    ensures Leq(a, c)
  {
    if a != [] && b != [] && c != [] && a[0] == b[0] == c[0] {
      LeqTransitive(a[1..], b[1..], c[1..]);
    }
  }

  lemma {:induction false} LeqAntisymmetric(a: string, b: string)
    requires Leq(a, b) && Leq(b, a)
    ensures a == b
  {
    if a != [] && b != [] {
      LeqAntisymmetric(a[1..], b[1..]);
      assert a == [a[0]] + a[1..] && b == [b[0]] + b[1..];
    }
  }

  /** `s` is in ascending order of `key`. */
  ghost predicate SortedBy<T>(s: seq<T>, key: T -> string) {
    forall i, j :: 0 <= i < j < |s| ==> Leq(key(s[i]), key(s[j]))
  }

  lemma {:induction false} LeqReflexive(a: string)
    ensures Leq(a, a)
  {
    if a != [] {
      LeqReflexive(a[1..]);
    }
  }

  /**
   * Inserts `x`, which came after every element of `s` in the input, after
   * the last element whose key is not above its own, so that equal keys keep
   * their input order.
   */
  function InsertBy<T>(x: T, s: seq<T>, key: T -> string): (r: seq<T>)
    ensures multiset(r) == multiset(s) + multiset{x}
  {
    if s == [] then [x]
    else if !Leq(key(s[0]), key(x)) then [x] + s
    else
      assert s == [s[0]] + s[1..];
      [s[0]] + InsertBy(x, s[1..], key)
  }

  /** A lower bound of `x` and of every element of `s` bounds every element of the insertion. */
  lemma {:induction false} InsertByBounded<T>(x: T, s: seq<T>, key: T -> string, b: string)
    requires Leq(b, key(x))
    requires forall j :: 0 <= j < |s| ==> Leq(b, key(s[j]))
    ensures forall j :: 0 <= j < |InsertBy(x, s, key)| ==> Leq(b, key(InsertBy(x, s, key)[j]))
  {
    if s != [] && Leq(key(s[0]), key(x)) {
      InsertByBounded(x, s[1..], key, b);
    }
  }

  /** Inserting into a sorted sequence keeps it sorted. */
  lemma {:induction false} InsertBySorted<T>(x: T, s: seq<T>, key: T -> string)
    requires SortedBy(s, key)
    ensures SortedBy(InsertBy(x, s, key), key)
  {
    if s != [] {
      var r := InsertBy(x, s, key);
      if !Leq(key(s[0]), key(x)) {
        LeqTotal(key(x), key(s[0]));
        forall j | 0 < j < |s| ensures Leq(key(x), key(s[j])) {
          LeqTransitive(key(x), key(s[0]), key(s[j]));
        }
      } else {
        var t := InsertBy(x, s[1..], key);
        InsertBySorted(x, s[1..], key);
        InsertByBounded(x, s[1..], key, key(s[0]));
        assert r == [s[0]] + t;
      }
    }
  }

  /** LINQ's `OrderBy(key)`: a permutation of `s` in ascending order of `key`. */
  function SortBy<T>(s: seq<T>, key: T -> string): (r: seq<T>)
    ensures multiset(r) == multiset(s)
    ensures SortedBy(r, key)
  {
    if s == [] then []
    else
      assert s == s[..|s| - 1] + [s[|s| - 1]];
      var t := SortBy(s[..|s| - 1], key);
      InsertBySorted(s[|s| - 1], t, key);
      InsertBy(s[|s| - 1], t, key)
  }

  /** The elements of `s` whose key is `v`, in order. */
  function WithKey<T>(s: seq<T>, key: T -> string, v: string): (r: seq<T>)
    ensures |r| <= |s|
  {
    if s == [] then [] else (if key(s[0]) == v then [s[0]] else []) + WithKey(s[1..], key, v)
  }

  lemma {:induction false} WithKeySnoc<T>(s: seq<T>, x: T, key: T -> string, v: string)
    ensures WithKey(s + [x], key, v) == WithKey(s, key, v) + (if key(x) == v then [x] else [])
    decreases |s|
  {
    if s != [] {
      assert (s + [x])[1..] == s[1..] + [x];
      WithKeySnoc(s[1..], x, key, v);
    }
  }

  lemma {:induction false} WithKeyNone<T>(s: seq<T>, key: T -> string, v: string)
    requires forall j :: 0 <= j < |s| ==> key(s[j]) != v
    ensures WithKey(s, key, v) == []
    decreases |s|
  {
    if s != [] {
      WithKeyNone(s[1..], key, v);
    }
  }

  /** Nothing in a sorted sequence whose first key is above `key(x)` has the key of `x`. */
  lemma AllAbove<T>(x: T, s: seq<T>, key: T -> string)
    requires SortedBy(s, key) && s != [] && !Leq(key(s[0]), key(x))
    ensures forall j :: 0 <= j < |s| ==> key(s[j]) != key(x)
  {
    forall j | 0 <= j < |s| ensures key(s[j]) != key(x) {
      if j == 0 {
        LeqReflexive(key(x));
      } else {
        assert Leq(key(s[0]), key(s[j]));
      }
    }
  }

  /** `x` placed in front of a sorted sequence whose first key is above its own comes after every element of its key. */
  lemma InsertFrontStable<T>(x: T, s: seq<T>, key: T -> string, v: string)
    requires SortedBy(s, key) && s != [] && !Leq(key(s[0]), key(x))
    ensures WithKey([x] + s, key, v) == WithKey(s, key, v) + (if key(x) == v then [x] else [])
  {
    var r := [x] + s;
    assert r[0] == x && r[1..] == s;
    if key(x) == v {
      AllAbove(x, s, key);
      WithKeyNone(s, key, v);
      assert WithKey(r, key, v) == [x] + WithKey(s, key, v);
    } else {
      assert WithKey(r, key, v) == WithKey(s, key, v);
    }
  }

  /** Inserting `x` puts it after every element of `s` with the same key. */
  lemma {:induction false} InsertByStable<T>(x: T, s: seq<T>, key: T -> string, v: string)
    requires SortedBy(s, key)
    ensures WithKey(InsertBy(x, s, key), key, v) == WithKey(s, key, v) + (if key(x) == v then [x] else [])
    decreases |s|
  {
    var tail: seq<T> := if key(x) == v then [x] else [];
    if s == [] {
      assert [x][1..] == [];
      assert WithKey(InsertBy(x, s, key), key, v) == tail;
    } else if !Leq(key(s[0]), key(x)) {
      InsertFrontStable(x, s, key, v);
      assert WithKey(InsertBy(x, s, key), key, v) == WithKey(s, key, v) + tail;
    } else {
      InsertLaterStable(x, s, key, v);
    }
  }

  /** The recursive case of `InsertByStable`. */
  lemma {:induction false} InsertLaterStable<T>(x: T, s: seq<T>, key: T -> string, v: string)
    requires SortedBy(s, key) && s != [] && Leq(key(s[0]), key(x))
    ensures WithKey(InsertBy(x, s, key), key, v) == WithKey(s, key, v) + (if key(x) == v then [x] else [])
    decreases |s|, 0
  {
    var tail: seq<T> := if key(x) == v then [x] else [];
    var t := InsertBy(x, s[1..], key);
    var r := [s[0]] + t;
    assert InsertBy(x, s, key) == r;
    assert r[0] == s[0] && r[1..] == t;
    InsertByStable(x, s[1..], key, v);
    var head: seq<T> := if key(s[0]) == v then [s[0]] else [];
    var rest := WithKey(s[1..], key, v);
    assert WithKey(s, key, v) == head + rest;
    assert WithKey(r, key, v) == head + WithKey(t, key, v) == head + (rest + tail);
    ConcatAssociative(head, rest, tail);
  }

  lemma ConcatAssociative<T>(a: seq<T>, b: seq<T>, c: seq<T>)
    ensures a + (b + c) == (a + b) + c
  {
  }

  /** `OrderBy` is stable: the elements of any one key keep their input order. */
  lemma {:induction false} SortByStable<T>(s: seq<T>, key: T -> string, v: string)
    ensures WithKey(SortBy(s, key), key, v) == WithKey(s, key, v)
    decreases |s|
  {
    if s != [] {
      var init := s[..|s| - 1];
      var last := s[|s| - 1];
      var t := SortBy(init, key);
      assert SortBy(s, key) == InsertBy(last, t, key);
      SortByStable(init, key, v);
      InsertByStable(last, t, key, v);
      WithKeySnoc(init, last, key, v);
      assert init + [last] == s;
    }
  }

  /** The identity key, for sorting strings by themselves. */
  function Self(s: string): string { s }
}
