/** The parts of Go that the modelled code leans on. */

/** Number types, and a value that may be missing. */
module GoTypes {

  const TWO16 := 0x1_0000
  const TWO63 := 0x8000_0000_0000_0000
  const TWO64 := 0x1_0000_0000_0000_0000

  type uint16 = x: int | 0 <= x < TWO16
  type uint64 = x: int | 0 <= x < TWO64
  type int64 = x: int | -TWO63 <= x < TWO63

  function Min(a: int, b: int): int {
    if a < b then a else b
  }

  function Max(a: int, b: int): int {
    if a < b then b else a
  }

  datatype Option<+T> = None | Some(value: T) {
    function GetOr(default: T): T {
      if Some? then value else default
    }
  }
}

/** `sort.Slice` and `sort.Search`. Callers see the contracts only, so nothing in the
    model depends on how ties are broken. */
module GoSort {

  ghost predicate StrictWeakOrder<T(!new)>(less: (T, T) -> bool) {
    && (forall a, b :: less(a, b) ==> !less(b, a))
    && (forall a, b, c :: !less(a, b) && !less(b, c) ==> !less(a, c))
  }

  ghost predicate Ordered<T>(s: seq<T>, less: (T, T) -> bool) {
    forall i, j :: 0 <= i < j < |s| ==> !less(s[j], s[i])
  }

  lemma NotLessTransitive<T(!new)>(less: (T, T) -> bool, a: T, b: T, c: T)
    requires StrictWeakOrder(less) && !less(a, b) && !less(b, c)
    ensures !less(a, c)
  {
  }

  /** Putting `x` after everything it does not precede and before everything it precedes. */
  lemma InsertionIsOrdered<T>(s: seq<T>, k: nat, x: T, less: (T, T) -> bool)
    requires k <= |s| && Ordered(s, less)
    requires forall i :: 0 <= i < k ==> !less(x, s[i])
    requires forall i :: k <= i < |s| ==> !less(s[i], x)
    ensures Ordered(s[..k] + [x] + s[k..], less)
  {
  }

  method InsertOrdered<T(!new)>(s: seq<T>, x: T, less: (T, T) -> bool) returns (r: seq<T>)
    requires StrictWeakOrder(less) && Ordered(s, less)
    ensures Ordered(r, less) && multiset(r) == multiset(s) + multiset{x}
  {
    var k := |s|;
    while k > 0 && less(x, s[k - 1])
      invariant 0 <= k <= |s|
      invariant forall i :: k <= i < |s| ==> less(x, s[i])
    {
      k := k - 1;
    }
    forall i | 0 <= i < k ensures !less(x, s[i]) {
      if i < k - 1 { NotLessTransitive(less, x, s[k - 1], s[i]); }
    }
    InsertionIsOrdered(s, k, x, less);
    r := s[..k] + [x] + s[k..];
    assert s == s[..k] + s[k..];
  }

  method SortSlice<T(!new)>(s: seq<T>, less: (T, T) -> bool) returns (r: seq<T>)
    requires StrictWeakOrder(less)
    ensures Ordered(r, less)
    ensures multiset(r) == multiset(s)
  {
    r := [];
    for n := 0 to |s|
      invariant Ordered(r, less) && multiset(r) == multiset(s[..n])
    {
      r := InsertOrdered(r, s[n], less);
      assert s[..n + 1] == s[..n] + [s[n]];
    }
    assert s[..|s|] == s;
  }

  /** Where the halving of `sort.Search` ends, when `p` is what its function answers. */
  function Bisect(p: seq<bool>, i: nat, j: nat): (idx: nat)
    requires i <= j <= |p|
    ensures i <= idx <= j
    decreases j - i
  {
    if i == j then i
    else
      var h := (i + j) / 2;
      if p[h] then Bisect(p, i, h) else Bisect(p, h + 1, j)
  }

  /** The index found is one at which the answers turn from false to true; there may be more. */
  lemma {:induction false} BisectTurns(p: seq<bool>, i: nat, j: nat)
    requires i <= j <= |p|
    ensures Bisect(p, i, j) > i ==> !p[Bisect(p, i, j) - 1]
    ensures Bisect(p, i, j) < j ==> p[Bisect(p, i, j)]
    decreases j - i
  {
    if i < j {
      var h := (i + j) / 2;
      if p[h] {
        BisectTurns(p, i, h);
      } else {
        BisectTurns(p, h + 1, j);
      }
    }
  }

  /** The binary search of `sort.Search`, for any function, monotone or not. */
  method SearchFirst(n: nat, f: int --> bool, ghost answers: seq<bool>) returns (idx: nat)
    requires |answers| == n
    requires forall i :: 0 <= i < n ==> f.requires(i) && f(i) == answers[i]
    ensures idx == Bisect(answers, 0, n)
  {
    var i, j := 0, n;
    while i < j
      invariant 0 <= i <= j <= n
      invariant Bisect(answers, i, j) == Bisect(answers, 0, n)
    {
      var h := (i + j) / 2;
      if !f(h) {
        i := h + 1;
      } else {
        j := h;
      }
    }
    idx := i;
  }
}

/** The string functions in use. A Go string is its bytes, one `char` per byte. */
module GoStrings {

  predicate HasPrefix(s: string, p: string) {
    p <= s
  }

  predicate HasSuffix(s: string, p: string) {
    |p| <= |s| && s[|s| - |p|..] == p
  }

  function TrimSuffix(s: string, p: string): string {
    if HasSuffix(s, p) then s[..|s| - |p|] else s
  }

  /** A suffix that is there goes, and only that. */
  lemma TrimSuffixIs(s: string, p: string)
    ensures TrimSuffix(s + p, p) == s
    ensures TrimSuffix(s, p) == s || TrimSuffix(s, p) + p == s
  {
  }

  function LowerChar(c: char): char {
    if 'A' <= c <= 'Z' then 'a' + (c - 'A') else c
  }

  /** `strings.ToLower` on ASCII text. */
  function ToLower(s: string): string {
    seq(|s|, i requires 0 <= i < |s| => LowerChar(s[i]))
  }

  const UPPER := "ABCDEFGHIJKLMNOPQRSTUVWXYZ"
  const LOWER := "abcdefghijklmnopqrstuvwxyz"

  /** Upper-case letters turn into their lower-case ones and nothing else changes. */
  lemma ToLowerByLetter(s: string)
    ensures |ToLower(s)| == |s|
    ensures forall i, k :: 0 <= i < |s| && 0 <= k < |UPPER| && s[i] == UPPER[k] ==> ToLower(s)[i] == LOWER[k]
    ensures forall i :: 0 <= i < |s| && s[i] !in UPPER ==> ToLower(s)[i] == s[i]
  {
  }

  predicate IsSpace(c: char) {
    c in {' ', '\t', '\n', '\r'} || c as int == 11 || c as int == 12
  }

  function TrimLeft(s: string): (r: string)
    ensures |r| <= |s|
  {
    if s != [] && IsSpace(s[0]) then TrimLeft(s[1..]) else s
  }

  function TrimRight(s: string): (r: string)
    ensures |r| <= |s|
  {
    if s != [] && IsSpace(s[|s| - 1]) then TrimRight(s[..|s| - 1]) else s
  }

  function TrimSpace(s: string): string {
    TrimRight(TrimLeft(s))
  }

  /** Space, and tab to carriage return. */
  ghost predicate Blank(c: char) {
    c as int == 32 || 9 <= c as int <= 13
  }

  lemma {:induction false} TrimLeftIs(s: string) returns (before: string)
    ensures s == before + TrimLeft(s) && forall c :: c in before ==> Blank(c)
    ensures TrimLeft(s) != "" ==> !Blank(TrimLeft(s)[0])
  {
    before := "";
    if s != "" && IsSpace(s[0]) {
      before := TrimLeftIs(s[1..]);
      before := [s[0]] + before;
    }
  }

  lemma {:induction false} TrimRightIs(s: string) returns (after: string)
    ensures s == TrimRight(s) + after && forall c :: c in after ==> Blank(c)
    ensures TrimRight(s) != "" ==> !Blank(TrimRight(s)[|TrimRight(s)| - 1])
  {
    after := "";
    if s != "" && IsSpace(s[|s| - 1]) {
      after := TrimRightIs(s[..|s| - 1]);
      after := after + [s[|s| - 1]];
    }
  }

  /** Trimming takes away the blanks at both ends, all of them and nothing else. */
  lemma TrimSpaceIs(s: string) returns (before: string, after: string)
    ensures s == before + TrimSpace(s) + after && forall c :: c in before + after ==> Blank(c)
    ensures TrimSpace(s) != "" ==> !Blank(TrimSpace(s)[0]) && !Blank(TrimSpace(s)[|TrimSpace(s)| - 1])
  {
    before := TrimLeftIs(s);
    var rest, r := TrimLeft(s), TrimSpace(s);
    after := TrimRightIs(rest);
    assert r != "" ==> r[0] == rest[0];
  }

  /** `strings.ReplaceAll` for a non-empty `old`: leftmost, non-overlapping. */
  function ReplaceAll(s: string, from: string, to: string): string
    requires from != ""
    decreases |s|
  {
    if s == "" then ""
    else if HasPrefix(s, from) then to + ReplaceAll(s[|from|..], from, to)
    else [s[0]] + ReplaceAll(s[1..], from, to)
  }

  function Split(s: string, sep: char): (parts: seq<string>)
    ensures |parts| >= 1
  {
    if s == "" then [""]
    else
      var rest := Split(s[1..], sep);
      if s[0] == sep then [""] + rest else [[s[0]] + rest[0]] + rest[1..]
  }

  function Join(parts: seq<string>, sep: char): string
    requires |parts| >= 1
  {
    if |parts| == 1 then parts[0] else parts[0] + [sep] + Join(parts[1..], sep)
  }

  /** No part holds a separator, and with separators between them the parts are the text. */
  lemma {:induction false} JoinUndoesSplit(s: string, sep: char)
    ensures Join(Split(s, sep), sep) == s
    ensures forall part :: part in Split(s, sep) ==> sep !in part
  {
    if s != "" {
      JoinUndoesSplit(s[1..], sep);
      var rest := Split(s[1..], sep);
      assert s == [s[0]] + s[1..];
      if s[0] == sep {
        assert ([""] + rest)[1..] == rest;
      } else {
        assert ([[s[0]] + rest[0]] + rest[1..])[1..] == rest[1..];
      }
    }
  }

  /** The first part ends at the first separator, and without one there is one part. */
  lemma {:induction false} SplitJoin(s: string, sep: char, t: string)
    requires sep !in s
    ensures Split(s + [sep] + t, sep) == [s] + Split(t, sep)
    ensures Split(s, sep) == [s]
  {
    if s == "" {
      assert s + [sep] + t == [sep] + t;
      assert ([sep] + t)[1..] == t;
    } else {
      SplitJoin(s[1..], sep, t);
      assert (s + [sep] + t)[1..] == s[1..] + [sep] + t;
      assert [s[0]] + s[1..] == s;
    }
  }

  function Count(s: string, c: char): nat {
    if s == "" then 0 else (if s[0] == c then 1 else 0) + Count(s[1..], c)
  }

  lemma {:induction false} CountIsMultiplicity(s: string, c: char)
    ensures Count(s, c) == multiset(s)[c]
  {
    if s != "" {
      CountIsMultiplicity(s[1..], c);
      assert s == [s[0]] + s[1..];
    }
  }

  /** Go's `<` on strings: byte by byte, a proper prefix is smaller. */
  predicate Less(a: string, b: string) {
    b != "" && (a == "" || a[0] < b[0] || (a[0] == b[0] && Less(a[1..], b[1..])))
  }

  /** After `n` equal bytes `a` ends or has the smaller one. */
  ghost predicate SmallerAt(a: string, b: string, n: nat) {
    n <= |a| && n < |b| && a[..n] == b[..n] && (n == |a| || a[n] < b[n])
  }

  lemma {:induction false} LessByFirstDifference(a: string, b: string)
    ensures Less(a, b) <==> exists n: nat :: SmallerAt(a, b, n)
  {
    if b != "" && a != "" && a[0] == b[0] {
      LessByFirstDifference(a[1..], b[1..]);
      if n: nat :| SmallerAt(a[1..], b[1..], n) {
        assert a[..n + 1] == [a[0]] + a[1..][..n] && b[..n + 1] == [b[0]] + b[1..][..n];
        assert SmallerAt(a, b, n + 1);
      }
      if n: nat :| SmallerAt(a, b, n) {
        assert n > 0;
        assert a[1..][..n - 1] == a[..n][1..] && b[1..][..n - 1] == b[..n][1..];
        assert SmallerAt(a[1..], b[1..], n - 1);
      }
    } else {
      assert Less(a, b) ==> SmallerAt(a, b, 0);
      if n: nat :| SmallerAt(a, b, n) {
        assert n > 0 ==> a[..n][0] == b[..n][0];
      }
    }
  }

  lemma {:induction false} LessIrreflexive(a: string)
    ensures !Less(a, a)
  {
    if a != "" { LessIrreflexive(a[1..]); }
  }

  lemma {:induction false} LessTotal(a: string, b: string)
    ensures Less(a, b) || a == b || Less(b, a)
  {
    if a != "" && b != "" && a[0] == b[0] {
      LessTotal(a[1..], b[1..]);
      if a[1..] == b[1..] { assert a == [a[0]] + a[1..] && b == [b[0]] + b[1..]; }
    }
  }

  lemma {:induction false} LessTransitive(a: string, b: string, c: string)
    requires Less(a, b) && Less(b, c)
    ensures Less(a, c)
  {
    if a != "" && a[0] == b[0] == c[0] { LessTransitive(a[1..], b[1..], c[1..]); }
  }

  lemma LessAsymmetric(a: string, b: string)
    requires Less(a, b)
    ensures !Less(b, a) && a != b
  {
  }

  /** Among prefixes of one string, Go's `<` is comparison of lengths. */
  lemma {:induction false} PrefixOrderIsLength(p: string, q: string, s: string)
    requires p <= s && q <= s
    ensures Less(p, q) <==> |p| < |q|
  {
    if p != "" && q != "" {
      PrefixOrderIsLength(p[1..], q[1..], s[1..]);
    }
  }
}
