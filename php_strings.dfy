/**
 * The PHP string built-ins the plugin relies on: `stripos`, `strpos`, `explode(' ', …)`,
 * `implode(' ', …)` and `trim`. A PHP string is a sequence of bytes; here every byte is one
 * `char`, and case folding is the ASCII one that `stripos` performs.
 */
module PhpStrings {
  import opened Wrappers

  /** ASCII lower-casing of one byte, as `stripos` compares. */
  function Lower(c: char): (r: char)
    ensures 'A' <= c <= 'Z' ==> 'a' <= r <= 'z'
    ensures !('A' <= c <= 'Z') ==> r == c
  {
    if 'A' <= c <= 'Z' then (c as int + 32) as char else c
  }

  /** Two bytes are equal, ignoring ASCII case when `ci` is set. */
  predicate SameChar(a: char, b: char, ci: bool)
  {
    if ci then Lower(a) == Lower(b) else a == b
  }

  /** A byte that is not an upper- or lower-case ASCII letter matches only itself. */
  lemma SameCharNonLetter(a: char, b: char, ci: bool)
    requires !('A' <= b <= 'Z') && !('a' <= b <= 'z')
    requires SameChar(a, b, ci)
    ensures a == b
  {
  }

  /** `needle` occurs in `s` at index `k`. */
  predicate MatchAt(s: string, needle: string, k: nat, ci: bool)
  {
    k + |needle| <= |s| && forall t :: 0 <= t < |needle| ==> SameChar(s[k + t], needle[t], ci)
  }

  /** `needle` occurs somewhere in `s`. */
  ghost predicate Occurs(s: string, needle: string, ci: bool)
  {
    exists k: nat :: MatchAt(s, needle, k, ci)
  }

  /**
   * The first index at or after `from` where `needle` occurs: `strpos`/`stripos` with an
   * offset, `None` standing for PHP's `false`.
   */
  function FindFrom(s: string, needle: string, from: nat, ci: bool): (r: Option<nat>)
    ensures r.Some? ==> from <= r.value && MatchAt(s, needle, r.value, ci)
    ensures forall k: nat :: from <= k && (r.None? || k < r.value) ==> !MatchAt(s, needle, k, ci)
    decreases |s| - from
  {
    if from + |needle| > |s| then None
    else if MatchAt(s, needle, from, ci) then Some(from)
    else FindFrom(s, needle, from + 1, ci)
  }

  /** `stripos($s, $needle)`: first ASCII-case-insensitive occurrence. */
  function StrIPos(s: string, needle: string): Option<nat>
  {
    FindFrom(s, needle, 0, true)
  }

  /** `strpos($s, $needle, $offset)`: first exact occurrence at or after `offset`. */
  function StrPos(s: string, needle: string, offset: nat): Option<nat>
  {
    FindFrom(s, needle, offset, false)
  }

  /** The search result is determined by the first occurrence. */
  lemma FindFromIsFirst(s: string, needle: string, from: nat, ci: bool, i: nat)
    requires from <= i && MatchAt(s, needle, i, ci)
    requires forall k: nat :: from <= k < i ==> !MatchAt(s, needle, k, ci)
    ensures FindFrom(s, needle, from, ci) == Some(i)
  {
  }

  /** Occurrences inside a slice are occurrences in the whole string, shifted by its start. */
  lemma MatchInSlice(s: string, lo: nat, hi: nat, needle: string, k: nat, ci: bool)
    requires lo <= hi <= |s|
    ensures MatchAt(s[lo..hi], needle, k, ci) <==> k + |needle| <= hi - lo && MatchAt(s, needle, lo + k, ci)
  {
    if k + |needle| <= hi - lo {
      assert forall t :: 0 <= t < |needle| ==> SameChar(s[lo..hi][k + t], needle[t], ci) == SameChar(s[lo + k + t], needle[t], ci);
    }
  }

  /** `explode(' ', $s)`: the pieces between single spaces; never empty (`explode(' ', '')` is `['']`). */
  function Explode(s: string): (r: seq<string>)
    ensures |r| >= 1
    ensures forall t :: t in r ==> ' ' !in t
    decreases |s|
  {
    if s == [] then [""]
    else
      var rest := Explode(s[1..]);
      if s[0] == ' ' then [""] + rest else [[s[0]] + rest[0]] + rest[1..]
  }

  /** `implode(' ', $tokens)`: the tokens joined with one space; `""` for no tokens. */
  function Implode(tokens: seq<string>): string
  {
    if |tokens| == 0 then ""
    else if |tokens| == 1 then tokens[0]
    else tokens[0] + " " + Implode(tokens[1..])
  }

  /** Joining the pieces of a split gives back the string. */
  lemma {:induction false} ImplodeExplode(s: string)
    ensures Implode(Explode(s)) == s
    decreases |s|
  {
    if s != [] {
      var rest := Explode(s[1..]);
      ImplodeExplode(s[1..]);
      if s[0] == ' ' {
        assert Explode(s) == [""] + rest;
        assert ([""] + rest)[1..] == rest;
        assert s == [s[0]] + s[1..];
      } else if |rest| == 1 {
        assert Explode(s) == [[s[0]] + rest[0]];
        assert s == [s[0]] + s[1..];
      } else {
        var first := [s[0]] + rest[0];
        assert Explode(s) == [first] + rest[1..];
        assert ([first] + rest[1..])[1..] == rest[1..];
        assert Implode(rest) == rest[0] + " " + Implode(rest[1..]);
        assert s == [s[0]] + s[1..];
      }
    }
  }

  /** A space-free string splits into itself. */
  lemma {:induction false} ExplodeNoSpace(a: string)
    requires ' ' !in a
    ensures Explode(a) == [a]
    decreases |a|
  {
    if a != [] {
      ExplodeNoSpace(a[1..]);
      assert a == [a[0]] + a[1..];
    }
  }

  /** Splitting `a + " " + b` with `a` space-free yields `a` then the pieces of `b`. */
  lemma {:induction false} ExplodeConcat(a: string, b: string)
    requires ' ' !in a
    ensures Explode(a + " " + b) == [a] + Explode(b)
    decreases |a|
  {
    var s := a + " " + b;
    if a == [] {
      assert s == " " + b && s[1..] == b;
    } else {
      assert s[1..] == a[1..] + " " + b;
      ExplodeConcat(a[1..], b);
      assert a == [a[0]] + a[1..];
    }
  }

  /** Splitting a join of space-free tokens gives back the tokens. */
  lemma {:induction false} ExplodeImplode(tokens: seq<string>)
    requires |tokens| >= 1
    requires forall t :: t in tokens ==> ' ' !in t
    ensures Explode(Implode(tokens)) == tokens
    decreases |tokens|
  {
    if |tokens| == 1 {
      ExplodeNoSpace(tokens[0]);
    } else {
      ExplodeImplode(tokens[1..]);
      ExplodeConcat(tokens[0], Implode(tokens[1..]));
      assert tokens == [tokens[0]] + tokens[1..];
    }
  }

  /** Every token appears verbatim inside the join. */
  lemma {:induction false} TokenInImplode(tokens: seq<string>, t: string) returns (i: nat)
    requires t in tokens
    ensures i + |t| <= |Implode(tokens)| && Implode(tokens)[i..i + |t|] == t
    decreases |tokens|
  {
    var s := Implode(tokens);
    if tokens[0] == t {
      i := 0;
      if |tokens| > 1 {
        assert s == t + (" " + Implode(tokens[1..]));
      }
    } else {
      var j := TokenInImplode(tokens[1..], t);
      var rest := Implode(tokens[1..]);
      assert s == tokens[0] + " " + rest;
      i := |tokens[0]| + 1 + j;
      assert s[i..i + |t|] == rest[j..j + |t|];
    }
  }

  /** Every piece of a split appears verbatim inside the split string. */
  lemma ExplodedTokenIsSlice(s: string, t: string) returns (i: nat)
    requires t in Explode(s)
    ensures i + |t| <= |s| && s[i..i + |t|] == t
  {
    ImplodeExplode(s);
    i := TokenInImplode(Explode(s), t);
  }

  /**
   * A space-free needle found in a join lies inside one of the joined tokens: the join
   * creates no occurrence that straddles a separator.
   */
  lemma {:induction false} ImplodeOccurrence(tokens: seq<string>, needle: string, k: nat, ci: bool)
    returns (t: string, j: nat)
    requires |needle| > 0 && ' ' !in needle
    requires MatchAt(Implode(tokens), needle, k, ci)
    ensures t in tokens && MatchAt(t, needle, j, ci)
    decreases |tokens|
  {
    var s := Implode(tokens);
    if |tokens| == 1 {
      t, j := tokens[0], k;
    } else {
      var rest := Implode(tokens[1..]);
      var n0 := |tokens[0]|;
      assert s == tokens[0] + " " + rest;
      if k + |needle| <= n0 {
        t, j := tokens[0], k;
        assert forall x :: 0 <= x < |needle| ==> SameChar(tokens[0][k + x], needle[x], ci) == SameChar(s[k + x], needle[x], ci);
      } else if k > n0 {
        assert forall x :: 0 <= x < |needle| ==> SameChar(rest[k - n0 - 1 + x], needle[x], ci) == SameChar(s[k + x], needle[x], ci);
        assert MatchAt(rest, needle, k - n0 - 1, ci);
        t, j := ImplodeOccurrence(tokens[1..], needle, k - n0 - 1, ci);
      } else {
        SeparatorBreaksMatch(s, needle, k, n0, ci);
        assert false;
      }
    }
  }

  /**
   * A needle cannot occur across a byte that is not a letter and that the needle does not
   * contain (a separating space, a closing quote).
   */
  lemma SeparatorBreaksMatch(s: string, needle: string, k: nat, p: nat, ci: bool)
    requires k <= p < k + |needle| && p < |s|
    requires !('A' <= s[p] <= 'Z') && !('a' <= s[p] <= 'z') && s[p] !in needle
    ensures !MatchAt(s, needle, k, ci)
  {
    var x := p - k;
    if MatchAt(s, needle, k, ci) {
      assert SameChar(s[k + x], needle[x], ci);
      SameCharNonLetter(needle[x], s[p], ci);
      assert false;
    }
  }

  /** A needle that contains a byte which is not a letter occurs only where that byte does. */
  lemma NeedleByteOccurs(s: string, needle: string, k: nat, x: nat, ci: bool)
    requires x < |needle| && !('A' <= needle[x] <= 'Z') && !('a' <= needle[x] <= 'z')
    requires MatchAt(s, needle, k, ci)
    ensures needle[x] in s
  {
    assert SameChar(s[k + x], needle[x], ci);
    SameCharNonLetter(s[k + x], needle[x], ci);
  }

  /** Occurrences in a common prefix are the same in both strings. */
  lemma PrefixMatch(r: string, s: string, p: nat, needle: string, k: nat, ci: bool)
    requires p <= |r| && p <= |s| && r[..p] == s[..p] && k + |needle| <= p
    ensures MatchAt(r, needle, k, ci) <==> MatchAt(s, needle, k, ci)
  {
    forall t | 0 <= t < |needle|
      ensures SameChar(r[k + t], needle[t], ci) == SameChar(s[k + t], needle[t], ci)
    {
      assert r[..p][k + t] == s[..p][k + t];
    }
  }

  /** The bytes PHP's `trim` removes by default: space, tab, newline, carriage return, NUL, vertical tab. */
  predicate IsTrimChar(c: char)
  {
    c == ' ' || c == '\t' || c == '\n' || c == '\r' || c == '\0' || c == '\U{000B}'
  }

  /** How many trim bytes start `s`. */
  function LeadingTrim(s: string): (n: nat)
    ensures n <= |s|
    ensures forall k :: 0 <= k < n ==> IsTrimChar(s[k])
    ensures n == |s| || !IsTrimChar(s[n])
    decreases |s|
  {
    if s != [] && IsTrimChar(s[0]) then 1 + LeadingTrim(s[1..]) else 0
  }

  /** How many trim bytes end `s`. */
  function TrailingTrim(s: string): (n: nat)
    ensures n <= |s|
    ensures forall k :: |s| - n <= k < |s| ==> IsTrimChar(s[k])
    ensures n == |s| || !IsTrimChar(s[|s| - 1 - n])
    decreases |s|
  {
    if s != [] && IsTrimChar(s[|s| - 1]) then 1 + TrailingTrim(s[..|s| - 1]) else 0
  }

  /** `trim($s)`: `s` without its leading and trailing trim bytes. */
  function Trim(s: string): (r: string)
  {
    var lead := LeadingTrim(s);
    var rest := s[lead..];
    rest[..|rest| - TrailingTrim(rest)]
  }

  /**
   * What `trim` keeps: a contiguous slice of `s` that neither starts nor ends with a trim byte,
   * with only trim bytes cut off on either side.
   */
  lemma TrimIsCore(s: string) returns (lo: nat, hi: nat)
    ensures lo <= hi <= |s| && Trim(s) == s[lo..hi]
    ensures forall k :: 0 <= k < lo ==> IsTrimChar(s[k])
    ensures forall k :: hi <= k < |s| ==> IsTrimChar(s[k])
    ensures Trim(s) != [] ==> !IsTrimChar(Trim(s)[0]) && !IsTrimChar(Trim(s)[|Trim(s)| - 1])
  {
    lo := LeadingTrim(s);
    var rest := s[lo..];
    var m := TrailingTrim(rest);
    hi := |s| - m;
    assert rest[..|rest| - m] == s[lo..hi];
    forall k | hi <= k < |s| ensures IsTrimChar(s[k]) {
      assert s[k] == rest[k - lo];
    }
  }

  /** Bytes of `trim($s)` are bytes of `s`. */
  lemma TrimOccurrence(s: string, needle: string, ci: bool)
    requires Occurs(Trim(s), needle, ci)
    ensures Occurs(s, needle, ci)
  {
    var k: nat :| MatchAt(Trim(s), needle, k, ci);
    var lo, hi := TrimIsCore(s);
    MatchInSlice(s, lo, hi, needle, k, ci);
  }
}
