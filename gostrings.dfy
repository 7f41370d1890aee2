/**
 * The part of Go's `strings` package (and of `sort.Strings`' byte order)
 * that the crawler relies on, written out over `seq<char>`.
 * A Dafny `char` is one Unicode scalar value, i.e. one Go rune.
 */
module GoStrings {

  /** `strings.HasSuffix` */
  predicate HasSuffix(s: string, suffix: string)
    ensures HasSuffix(s, suffix) <==> exists stem :: s == stem + suffix
  {
    var r := |suffix| <= |s| && s[|s| - |suffix|..] == suffix;
    assert r ==> s == s[..|s| - |suffix|] + suffix;
    r
  }

  /** A string ends with what was appended to it. */
  lemma HasSuffixOfConcat(stem: string, suffix: string)
    ensures HasSuffix(stem + suffix, suffix)
  {
    assert (stem + suffix)[|stem|..] == suffix;
  }

  /** A string whose last character differs from the suffix's last character does not end with it. */
  lemma NoSuffixLastChar(s: string, suffix: string)
    requires s != [] && suffix != [] && s[|s| - 1] != suffix[|suffix| - 1]
    ensures !HasSuffix(s, suffix)
  {
    if |suffix| <= |s| {
      assert s[|s| - |suffix|..][|suffix| - 1] == s[|s| - 1];
    }
  }

  /** `pat` occurs in `s` starting at index `i`. */
  predicate OccursAt(s: string, pat: string, i: nat) {
    i + |pat| <= |s| && s[i..i + |pat|] == pat
  }

  /** `pat` occurs nowhere in `s`. */
  ghost predicate Absent(s: string, pat: string) {
    forall i: nat :: !OccursAt(s, pat, i)
  }

  /** `s` ends with the non-empty `pat`, and `pat` starts nowhere else in `s`. */
  predicate OnlyAtEnd(s: string, pat: string) {
    pat != [] && HasSuffix(s, pat) &&
    forall i: nat :: i < |s| - |pat| ==> !OccursAt(s, pat, i)
  }

  /** What `strings.ReplaceAll` does when `old` is empty: `rep` before every rune and at the end. */
  function Interleave(s: string, rep: string): string {
    if s == [] then rep else rep + [s[0]] + Interleave(s[1..], rep)
  }

  /**
   * `strings.ReplaceAll(s, pat, rep)`: scans left to right and replaces
   * every non-overlapping occurrence of `pat`.
   */
  function ReplaceAll(s: string, pat: string, rep: string): string
    decreases |s|
  {
    if pat == [] then Interleave(s, rep)
    else if |s| < |pat| then s
    else if s[..|pat|] == pat then rep + ReplaceAll(s[|pat|..], pat, rep)
    else [s[0]] + ReplaceAll(s[1..], pat, rep)
  }

  /** Without an occurrence of `pat`, `ReplaceAll` returns its input unchanged. */
  lemma {:induction false} ReplaceAllNoMatch(s: string, pat: string, rep: string)
    ensures pat != [] && Absent(s, pat) ==> ReplaceAll(s, pat, rep) == s
  {
    if pat != [] && Absent(s, pat) && |s| >= |pat| {
      assert !OccursAt(s, pat, 0);
      forall i: nat ensures !OccursAt(s[1..], pat, i) {
        assert !OccursAt(s, pat, i + 1);
        if i + |pat| <= |s[1..]| {
          assert s[1..][i..i + |pat|] == s[i + 1..i + 1 + |pat|];
        }
      }
      ReplaceAllNoMatch(s[1..], pat, rep);
    }
  }

  /**
   * When `pat` occurs in `base + pat` only at its end, `ReplaceAll` swaps that
   * one trailing occurrence for `rep` and leaves `base` alone.
   */
  lemma {:induction false} ReplaceAllTrailing(base: string, pat: string, rep: string)
    requires OnlyAtEnd(base + pat, pat)
    ensures ReplaceAll(base + pat, pat, rep) == base + rep
  {
    var s := base + pat;
    if base == [] {
      assert s == pat && base + rep == rep;
      ReplaceAllWhole(pat, rep);
    } else {
      OnlyAtEndTail(base, pat);
      ReplaceAllTrailing(base[1..], pat, rep);
      ReplaceAllStep(s, pat, rep);
      assert s[0] == base[0];
      assert [s[0]] + (base[1..] + rep) == base + rep;
    }
  }

  /** The pattern alone is replaced by `rep`. */
  lemma ReplaceAllWhole(pat: string, rep: string)
    requires pat != []
    ensures ReplaceAll(pat, pat, rep) == rep
  {
    assert pat[..|pat|] == pat && pat[|pat|..] == [];
  }

  /** Where `pat` does not start, `ReplaceAll` copies one character and goes on. */
  lemma ReplaceAllStep(s: string, pat: string, rep: string)
    requires pat != [] && |pat| <= |s| && s[..|pat|] != pat
    ensures ReplaceAll(s, pat, rep) == [s[0]] + ReplaceAll(s[1..], pat, rep)
  {
  }

  /** Dropping the first character of a non-empty `base` keeps `pat` only at the end, and `pat` is not at the start. */
  lemma OnlyAtEndTail(base: string, pat: string)
    requires base != [] && OnlyAtEnd(base + pat, pat)
    ensures (base + pat)[..|pat|] != pat
    ensures (base + pat)[1..] == base[1..] + pat
    ensures OnlyAtEnd(base[1..] + pat, pat)
  {
    var s := base + pat;
    assert !OccursAt(s, pat, 0);
    var t := base[1..] + pat;
    assert s[1..] == t;
    forall i: nat | i < |t| - |pat| ensures !OccursAt(t, pat, i) {
      assert !OccursAt(s, pat, i + 1);
      assert t[i..i + |pat|] == s[i + 1..i + 1 + |pat|];
    }
    assert t[|t| - |pat|..] == pat;
  }

  /** A pattern found only at the end is replaced there and nowhere else. */
  lemma ReplaceAllAtEnd(s: string, pat: string, rep: string)
    ensures OnlyAtEnd(s, pat) ==> ReplaceAll(s, pat, rep) == s[..|s| - |pat|] + rep
  {
    if OnlyAtEnd(s, pat) {
      assert s == s[..|s| - |pat|] + pat;
      ReplaceAllTrailing(s[..|s| - |pat|], pat, rep);
    }
  }

  /** A prefix without the first character of `pat` is copied through unchanged. */
  lemma {:induction false} ReplaceAllSkip(prefix: string, s: string, pat: string, rep: string)
    requires pat != [] && pat[0] !in prefix
    ensures ReplaceAll(prefix + s, pat, rep) == prefix + ReplaceAll(s, pat, rep)
  {
    if prefix != [] {
      var t := prefix + s;
      assert t[1..] == prefix[1..] + s;
      ReplaceAllSkip(prefix[1..], s, pat, rep);
      if |t| < |pat| {
        ReplaceAllShort(s, pat, rep);
        assert ReplaceAll(t, pat, rep) == t;
      } else {
        assert t[..|pat|] != pat by { assert t[..|pat|][0] == prefix[0]; }
        ReplaceAllStep(t, pat, rep);
      }
      assert [prefix[0]] + (prefix[1..] + ReplaceAll(s, pat, rep)) == prefix + ReplaceAll(s, pat, rep);
    } else {
      assert prefix + s == s;
    }
  }

  /** `ReplaceAll` on `prefix + pat`, where `prefix` does not contain the first character of `pat`. */
  lemma ReplaceAfter(prefix: string, pat: string, rep: string)
    requires pat != [] && pat[0] !in prefix
    ensures ReplaceAll(prefix + pat, pat, rep) == prefix + rep
  {
    ReplaceAllSkip(prefix, pat, pat, rep);
    ReplaceAllLeading(pat, [], rep);
    assert pat + [] == pat;
    assert rep + [] == rep;
  }

  /** `ReplaceAll` on `pat + mid + pat`, where `mid` does not contain the first character of `pat`. */
  lemma ReplaceAround(pat: string, mid: string, rep: string)
    requires pat != [] && pat[0] !in mid
    ensures ReplaceAll(pat + mid + pat, pat, rep) == rep + mid + rep
  {
    assert pat + mid + pat == pat + (mid + pat);
    ReplaceAllLeading(pat, mid + pat, rep);
    ReplaceAfter(mid, pat, rep);
  }

  /** A string shorter than a non-empty `pat` is returned unchanged. */
  lemma ReplaceAllShort(s: string, pat: string, rep: string)
    requires pat != [] && |s| < |pat|
    ensures ReplaceAll(s, pat, rep) == s
  {
  }

  /** A leading occurrence of `pat` becomes `rep`. */
  lemma ReplaceAllLeading(pat: string, s: string, rep: string)
    requires pat != []
    ensures ReplaceAll(pat + s, pat, rep) == rep + ReplaceAll(s, pat, rep)
  {
    assert (pat + s)[..|pat|] == pat;
    assert (pat + s)[|pat|..] == s;
  }

  /** Number of occurrences of `c` in `s`. */
  function CountChar(s: string, c: char): nat {
    if s == [] then 0 else (if s[0] == c then 1 else 0) + CountChar(s[1..], c)
  }

  /** `strings.Split(s, string(sep))` for a one-character separator. */
  function Split(s: string, sep: char): (parts: seq<string>)
    ensures |parts| == CountChar(s, sep) + 1
  {
    if s == [] then [[]]
    else
      var rest := Split(s[1..], sep);
      if s[0] == sep then [[]] + rest else [[s[0]] + rest[0]] + rest[1..]
  }

  /** `strings.Join(parts, sep)` */
  function Join(parts: seq<string>, sep: string): string {
    if parts == [] then []
    else if |parts| == 1 then parts[0]
    else parts[0] + sep + Join(parts[1..], sep)
  }

  /** Splitting `a + t`, where `a` has no separator, glues `a` to the first piece of `t`. */
  lemma {:induction false} SplitPrefix(a: string, t: string, sep: char)
    requires sep !in a
    ensures Split(a + t, sep) == [a + Split(t, sep)[0]] + Split(t, sep)[1..]
  {
    if a != [] {
      assert (a + t)[1..] == a[1..] + t;
      SplitPrefix(a[1..], t, sep);
      assert [a[0]] + (a[1..] + Split(t, sep)[0]) == a + Split(t, sep)[0];
    } else {
      assert a + t == t;
      assert a + Split(t, sep)[0] == Split(t, sep)[0];
      assert Split(t, sep) == [Split(t, sep)[0]] + Split(t, sep)[1..];
    }
  }

  /** `Split` undoes `Join` when no part contains the separator. */
  lemma {:induction false} SplitJoin(parts: seq<string>, sep: char)
    requires parts != []
    requires forall i :: 0 <= i < |parts| ==> sep !in parts[i]
    ensures Split(Join(parts, [sep]), sep) == parts
  {
    if |parts| == 1 {
      SplitPrefix(parts[0], [], sep);
      assert parts[0] + [] == parts[0];
    } else {
      var t := Join(parts[1..], [sep]);
      SplitJoin(parts[1..], sep);
      assert Join(parts, [sep]) == parts[0] + ([sep] + t);
      SplitPrefix(parts[0], [sep] + t, sep);
      assert ([sep] + t)[1..] == t;
      assert Split([sep] + t, sep) == [[]] + Split(t, sep);
      assert parts[0] + [] == parts[0];
      assert parts == [parts[0]] + parts[1..];
    }
  }

  /** `Join` starts with the first part. */
  lemma JoinStartsWithFirst(parts: seq<string>, sep: string)
    requires parts != []
    ensures parts[0] <= Join(parts, sep)
  {
    if |parts| > 1 {
      assert Join(parts, sep) == parts[0] + (sep + Join(parts[1..], sep));
    }
  }

  /** `Join` contains the separator only where it was put, so it has no `c` when no part has one. */
  lemma {:induction false} JoinAvoids(parts: seq<string>, sep: string, c: char)
    requires c !in sep
    requires forall i :: 0 <= i < |parts| ==> c !in parts[i]
    ensures c !in Join(parts, sep)
  {
    if |parts| > 1 {
      JoinAvoids(parts[1..], sep, c);
    }
  }

  /** Go's `\w`: an ASCII letter, digit or underscore. */
  predicate IsWordChar(c: char) {
    ('a' <= c <= 'z') || ('A' <= c <= 'Z') || ('0' <= c <= '9') || c == '_'
  }

  predicate AllWord(s: string) {
    forall i :: 0 <= i < |s| ==> IsWordChar(s[i])
  }

  /** Length of the longest prefix of word characters. */
  function WordPrefixLen(s: string): (n: nat)
    ensures n <= |s| && AllWord(s[..n])
    ensures n < |s| ==> !IsWordChar(s[n])
  {
    if s == [] || !IsWordChar(s[0]) then 0
    else
      var n := 1 + WordPrefixLen(s[1..]);
      assert forall i :: 1 <= i < n ==> s[..n][i] == s[1..][..n - 1][i - 1];
      n
  }

  /** The longest word prefix of `w + t` is `w` when `t` does not start with a word character. */
  lemma {:induction false} WordPrefixOf(w: string, t: string)
    requires AllWord(w)
    requires t == [] || !IsWordChar(t[0])
    ensures WordPrefixLen(w + t) == |w|
  {
    if w == [] {
      assert w + t == t;
    } else {
      assert (w + t)[0] == w[0];
      assert (w + t)[1..] == w[1..] + t;
      WordPrefixOf(w[1..], t);
    }
  }

  /**
   * Byte order of Go strings (`sort.Strings`, `<` on string): since UTF-8
   * preserves code point order, comparing runes gives the same answer.
   */
  predicate StrLess(a: string, b: string) {
    if a == [] then b != []
    else if b == [] then false
    else a[0] < b[0] || (a[0] == b[0] && StrLess(a[1..], b[1..]))
  }

  lemma {:induction false} StrLessIrreflexive(a: string)
    ensures !StrLess(a, a)
  {
    if a != [] {
      StrLessIrreflexive(a[1..]);
    }
  }

  lemma {:induction false} StrLessTransitive(a: string, b: string, c: string)
    requires StrLess(a, b) && StrLess(b, c)
    ensures StrLess(a, c)
  {
    if a != [] && b != [] && c != [] && a[0] == b[0] == c[0] {
      StrLessTransitive(a[1..], b[1..], c[1..]);
    }
  }

  lemma {:induction false} StrLessTotal(a: string, b: string)
    requires a != b
    ensures StrLess(a, b) || StrLess(b, a)
  {
    if a != [] && b != [] && a[0] == b[0] {
      assert a == [a[0]] + a[1..] && b == [b[0]] + b[1..];
      StrLessTotal(a[1..], b[1..]);
    }
  }

  lemma StrLessAsymmetric(a: string, b: string)
    requires StrLess(a, b)
    ensures !StrLess(b, a)
  {
    if StrLess(b, a) {
      StrLessTransitive(a, b, a);
      StrLessIrreflexive(a);
    }
  }

  /** Transitivity stated for any three strings. */
  lemma StrLessChain(a: string, b: string, c: string)
    ensures StrLess(a, b) && StrLess(b, c) ==> StrLess(a, c)
  {
    if StrLess(a, b) && StrLess(b, c) {
      StrLessTransitive(a, b, c);
    }
  }

  /** In the order `sort.Strings` leaves: no element is less than one before it. */
  predicate Sorted(s: seq<string>) {
    forall i, j :: 0 <= i < j < |s| ==> !StrLess(s[j], s[i])
  }

  /** Every element occurs once. */
  predicate NoDuplicates(s: seq<string>) {
    forall i, j :: 0 <= i < j < |s| ==> s[i] != s[j]
  }

  /** `k` put before the first element it is less than. */
  function Insert(ks: seq<string>, k: string): seq<string> {
    if ks == [] then [k]
    else if StrLess(k, ks[0]) then [k] + ks
    else [ks[0]] + Insert(ks[1..], k)
  }

  lemma {:induction false} InsertKeepsSorted(ks: seq<string>, k: string)
    requires Sorted(ks)
    ensures Sorted(Insert(ks, k))
    ensures multiset(Insert(ks, k)) == multiset(ks) + multiset{k}
  {
    if ks != [] {
      if StrLess(k, ks[0]) {
        InsertFront(ks, k);
      } else {
        InsertKeepsSorted(ks[1..], k);
        InsertBehind(ks, k, Insert(ks[1..], k));
      }
    }
  }

  lemma InsertFront(ks: seq<string>, k: string)
    requires Sorted(ks) && ks != [] && StrLess(k, ks[0])
    ensures Sorted([k] + ks)
  {
    var r := [k] + ks;
    StrLessIrreflexive(ks[0]);
    forall j | 1 <= j < |r| ensures !StrLess(r[j], k) {
      StrLessChain(r[j], k, ks[0]);
    }
  }

  lemma InsertBehind(ks: seq<string>, k: string, tail: seq<string>)
    requires Sorted(ks) && ks != [] && !StrLess(k, ks[0])
    requires Sorted(tail) && multiset(tail) == multiset(ks[1..]) + multiset{k}
    ensures Sorted([ks[0]] + tail)
    ensures multiset([ks[0]] + tail) == multiset(ks) + multiset{k}
  {
    assert ks == [ks[0]] + ks[1..];
    var r := [ks[0]] + tail;
    forall j | 1 <= j < |r| ensures !StrLess(r[j], ks[0]) {
      assert r[j] in multiset(tail);
    }
  }

  /** `sort.Strings`: the sorted permutation of `xs`, built here by insertion. */
  method SortStrings(xs: seq<string>) returns (r: seq<string>)
    ensures Sorted(r)
    ensures multiset(r) == multiset(xs)
  {
    r := [];
    var i := 0;
    while i < |xs|
      invariant 0 <= i <= |xs|
      invariant Sorted(r)
      invariant multiset(r) == multiset(xs[..i])
    {
      InsertKeepsSorted(r, xs[i]);
      r := Insert(r, xs[i]);
      assert xs[..i + 1] == xs[..i] + [xs[i]];
      i := i + 1;
    }
    assert xs[..i] == xs;
  }

  lemma {:induction false} NoDuplicatesCount(s: seq<string>)
    requires NoDuplicates(s)
    ensures forall x :: multiset(s)[x] <= 1
  {
    if s != [] {
      var init := s[..|s| - 1];
      NoDuplicatesCount(init);
      assert s == init + [s[|s| - 1]];
      assert s[|s| - 1] !in init;
    }
  }

  lemma RepeatCount(s: seq<string>, i: nat, j: nat)
    requires i < j < |s|
    ensures s[i] == s[j] ==> multiset(s)[s[i]] >= 2
  {
    assert s == s[..j] + s[j..];
    assert s[i] in s[..j] && s[j] in s[j..];
  }

  /** A permutation of a sequence without duplicates has none either. */
  lemma PermutationNoDuplicates(a: seq<string>, b: seq<string>)
    requires NoDuplicates(a) && multiset(a) == multiset(b)
    ensures NoDuplicates(b)
  {
    NoDuplicatesCount(a);
    forall i, j | 0 <= i < j < |b| ensures b[i] != b[j] {
      RepeatCount(b, i, j);
    }
  }
}
