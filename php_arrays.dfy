/**
 * The PHP array built-ins applied to lists of class tokens: `array_unique` (keep the first
 * occurrence of each string), `array_filter` without a callback (drop the values PHP calls
 * empty), and `in_array`/`empty` on strings.
 */
module PhpArrays {

  /** `empty($s)` for a string: only `""` and `"0"` are empty. */
  predicate IsEmpty(s: string)
  {
    s == "" || s == "0"
  }

  /** No string appears twice. */
  predicate NoDup(s: seq<string>)
  {
    forall i, j :: 0 <= i < j < |s| ==> s[i] != s[j]
  }

  /** `array_unique`: every string once, at its first occurrence. */
  function ArrayUnique(s: seq<string>): (r: seq<string>)
    ensures NoDup(r)
    ensures forall x :: x in r <==> x in s
    decreases |s|
  {
    if s == [] then []
    else
      var init, last := s[..|s| - 1], s[|s| - 1];
      assert s == init + [last];
      var u := ArrayUnique(init);
      if last in init then u else u + [last]
  }

  /** `array_filter` without callback: drop `""` and `"0"`, keep the order of the rest. */
  function ArrayFilter(s: seq<string>): (r: seq<string>)
    ensures forall x :: x in r <==> x in s && !IsEmpty(x)
    ensures |r| <= |s|
    decreases |s|
  {
    if s == [] then []
    else
      var init, last := s[..|s| - 1], s[|s| - 1];
      assert s == init + [last];
      var f := ArrayFilter(init);
      if IsEmpty(last) then f else f + [last]
  }

  /** `array_filter(array_unique($s))`: the cleaned token list of lines 62 and 120. */
  function CleanTokens(s: seq<string>): (r: seq<string>)
    ensures NoDup(r)
    ensures forall x :: x in r <==> x in s && !IsEmpty(x)
  {
    var r := ArrayFilter(ArrayUnique(s));
    FilterKeepsNoDup(ArrayUnique(s));
    r
  }

  lemma UniqueSnoc(s: seq<string>, x: string)
    ensures ArrayUnique(s + [x]) == if x in s then ArrayUnique(s) else ArrayUnique(s) + [x]
  {
    assert (s + [x])[..|s|] == s;
  }

  lemma FilterSnoc(s: seq<string>, x: string)
    ensures ArrayFilter(s + [x]) == if IsEmpty(x) then ArrayFilter(s) else ArrayFilter(s) + [x]
  {
    assert (s + [x])[..|s|] == s;
  }

  /** Filtering distributes over concatenation. */
  lemma {:induction false} FilterAppend(a: seq<string>, b: seq<string>)
    ensures ArrayFilter(a + b) == ArrayFilter(a) + ArrayFilter(b)
    decreases |b|
  {
    if b == [] {
      assert a + b == a;
    } else {
      var init, last := b[..|b| - 1], b[|b| - 1];
      assert b == init + [last];
      assert a + b == (a + init) + [last];
      FilterAppend(a, init);
      FilterSnoc(a + init, last);
      FilterSnoc(init, last);
      var fa, fi := ArrayFilter(a), ArrayFilter(init);
      if !IsEmpty(last) {
        ConcatAssoc(fa, fi, [last]);
      }
    }
  }

  /** Filtering keeps a list free of repetitions. */
  lemma {:induction false} FilterKeepsNoDup(s: seq<string>)
    requires NoDup(s)
    ensures NoDup(ArrayFilter(s))
    decreases |s|
  {
    if s != [] {
      var init, last := s[..|s| - 1], s[|s| - 1];
      assert s == init + [last];
      FilterKeepsNoDup(init);
      FilterSnoc(init, last);
      assert last !in init;
    }
  }

  /** A list with nothing empty in it passes the filter unchanged. */
  lemma {:induction false} FilterOfNonEmpty(s: seq<string>)
    requires forall x :: x in s ==> !IsEmpty(x)
    ensures ArrayFilter(s) == s
    decreases |s|
  {
    if s != [] {
      var init, last := s[..|s| - 1], s[|s| - 1];
      assert s == init + [last];
      FilterOfNonEmpty(init);
      FilterSnoc(init, last);
    }
  }

  /** A list without repetitions passes `array_unique` unchanged. */
  lemma {:induction false} UniqueOfNoDup(s: seq<string>)
    requires NoDup(s)
    ensures ArrayUnique(s) == s
    decreases |s|
  {
    if s != [] {
      var init, last := s[..|s| - 1], s[|s| - 1];
      assert s == init + [last];
      UniqueOfNoDup(init);
      UniqueSnoc(init, last);
    }
  }

  /** `array_filter` and `array_unique` commute. */
  lemma {:induction false} FilterUniqueCommute(s: seq<string>)
    ensures ArrayFilter(ArrayUnique(s)) == ArrayUnique(ArrayFilter(s))
    decreases |s|
  {
    if s != [] {
      var init, last := s[..|s| - 1], s[|s| - 1];
      assert s == init + [last];
      FilterUniqueCommute(init);
      UniqueSnoc(init, last);
      FilterSnoc(init, last);
      FilterSnoc(ArrayUnique(init), last);
      if !IsEmpty(last) {
        UniqueSnoc(ArrayFilter(init), last);
      }
    }
  }

  /** Strings that already occurred earlier are ignored by `array_unique`. */
  lemma {:induction false} UniqueAbsorbs(a: seq<string>, b: seq<string>)
    requires forall x :: x in b ==> x in a
    ensures ArrayUnique(a + b) == ArrayUnique(a)
    decreases |b|
  {
    if b == [] {
      assert a + b == a;
    } else {
      var init, last := b[..|b| - 1], b[|b| - 1];
      assert b == init + [last];
      assert a + b == (a + init) + [last];
      UniqueAbsorbs(a, init);
      UniqueSnoc(a + init, last);
    }
  }

  /** Inserting a string that already occurred earlier does not change `array_unique`. */
  lemma {:induction false} UniqueSkipsSeen(c: seq<string>, x: string, rest: seq<string>)
    requires x in c
    ensures ArrayUnique(c + [x] + rest) == ArrayUnique(c + rest)
    decreases |rest|
  {
    if rest == [] {
      assert c + [x] + rest == c + [x];
      assert c + rest == c;
      UniqueSnoc(c, x);
    } else {
      var init, last := rest[..|rest| - 1], rest[|rest| - 1];
      assert rest == init + [last];
      assert c + [x] + rest == (c + [x] + init) + [last];
      assert c + rest == (c + init) + [last];
      UniqueSkipsSeen(c, x, init);
      UniqueSnoc(c + [x] + init, last);
      UniqueSnoc(c + init, last);
    }
  }

  /** The strings of `b` that do not occur in `a`, in order. */
  function Missing(b: seq<string>, a: seq<string>): (r: seq<string>)
    ensures forall x :: x in r <==> x in b && x !in a
    decreases |b|
  {
    if b == [] then []
    else
      var init, last := b[..|b| - 1], b[|b| - 1];
      assert b == init + [last];
      Missing(init, a) + (if last in a then [] else [last])
  }

  /** Regrouping a concatenation, kept apart so that `UniqueConcat` stays small. */
  lemma ConcatAssoc(a: seq<string>, b: seq<string>, c: seq<string>)
    ensures (a + b) + c == a + (b + c)
  {
  }

  lemma MissingSnoc(b: seq<string>, x: string, a: seq<string>)
    ensures Missing(b + [x], a) == Missing(b, a) + (if x in a then [] else [x])
  {
    assert (b + [x])[..|b|] == b;
  }

  /** `array_unique` of a concatenation: the first part's strings, then the new ones of the second. */
  lemma {:induction false} UniqueConcat(a: seq<string>, b: seq<string>)
    ensures ArrayUnique(a + b) == ArrayUnique(a) + ArrayUnique(Missing(b, a))
    decreases |b|
  {
    if b == [] {
      assert a + b == a;
    } else {
      var init, last := b[..|b| - 1], b[|b| - 1];
      assert b == init + [last];
      assert a + b == (a + init) + [last];
      var m := Missing(init, a);
      UniqueConcat(a, init);
      UniqueSnoc(a + init, last);
      MissingSnoc(init, last, a);
      var ua, um := ArrayUnique(a), ArrayUnique(m);
      assert ArrayUnique(a + init) == ua + um;
      if last in a {
        assert ArrayUnique(a + b) == ua + um;
        assert Missing(b, a) == m;
      } else {
        UniqueSnoc(m, last);
        assert Missing(b, a) == m + [last];
        if last in init {
          assert last in m;
          assert ArrayUnique(a + b) == ua + um;
          assert ArrayUnique(m + [last]) == um;
        } else {
          assert last !in m;
          assert ArrayUnique(a + b) == (ua + um) + [last];
          assert ArrayUnique(m + [last]) == um + [last];
          ConcatAssoc(ua, um, [last]);
        }
      }
    }
  }

  /**
   * The cleaned list grows one string at a time: a new string is appended unless it is empty
   * or already present (first occurrence wins).
   */
  lemma CleanTokensSnoc(s: seq<string>, x: string)
    ensures CleanTokens(s + [x]) == if IsEmpty(x) || x in s then CleanTokens(s) else CleanTokens(s) + [x]
  {
    UniqueSnoc(s, x);
    if x !in s {
      FilterSnoc(ArrayUnique(s), x);
    }
  }

  /** A list of empty strings only cleans to no tokens. */
  lemma {:induction false} CleanTokensAllEmpty(s: seq<string>)
    requires forall x :: x in s ==> IsEmpty(x)
    ensures CleanTokens(s) == []
    decreases |s|
  {
    if s != [] {
      var init, last := s[..|s| - 1], s[|s| - 1];
      assert s == init + [last];
      CleanTokensAllEmpty(init);
      CleanTokensSnoc(init, last);
    }
  }

  /** Cleaning a cleaned list changes nothing. */
  lemma CleanTokensIdempotent(s: seq<string>)
    ensures CleanTokens(CleanTokens(s)) == CleanTokens(s)
  {
    var c := CleanTokens(s);
    UniqueOfNoDup(c);
    FilterOfNonEmpty(c);
  }

  /**
   * Cleaning `existing + extra` keeps the cleaned existing tokens first and then appends, in
   * order, the cleaned extra tokens that were not already present.
   */
  lemma CleanTokensConcat(existing: seq<string>, extra: seq<string>)
    ensures CleanTokens(existing + extra) == CleanTokens(existing) + CleanTokens(Missing(extra, existing))
  {
    UniqueConcat(existing, extra);
    FilterAppend(ArrayUnique(existing), ArrayUnique(Missing(extra, existing)));
  }

  /**
   * If every non-empty string of `b` is already among the cleaned tokens `m`, and `a` cleans to
   * `m`, then `a + b` also cleans to `m`.
   */
  lemma CleanTokensAbsorbs(a: seq<string>, b: seq<string>, m: seq<string>)
    requires ArrayFilter(a) == m && NoDup(m)
    requires forall x :: x in b && !IsEmpty(x) ==> x in m
    ensures CleanTokens(a + b) == m
  {
    FilterUniqueCommute(a + b);
    FilterAppend(a, b);
    UniqueAbsorbs(m, ArrayFilter(b));
    UniqueOfNoDup(m);
  }

  /** Skipping a token that is already in the list does not change the cleaned result. */
  lemma CleanTokensSkipsSeen(c: seq<string>, x: string, rest: seq<string>)
    requires x in c
    ensures CleanTokens(c + [x] + rest) == CleanTokens(c + rest)
  {
    UniqueSkipsSeen(c, x, rest);
  }

  /** Skipping an empty token does not change the cleaned result. */
  lemma CleanTokensSkipsEmpty(c: seq<string>, x: string, rest: seq<string>)
    requires IsEmpty(x)
    ensures CleanTokens(c + [x] + rest) == CleanTokens(c + rest)
  {
    FilterUniqueCommute(c + [x] + rest);
    FilterUniqueCommute(c + rest);
    FilterAppend(c + [x], rest);
    FilterAppend(c, [x]);
    FilterAppend(c, rest);
    assert ArrayFilter([x]) == [] by { FilterSnoc([], x); }
  }
}
