/**
 * `add_classes_to_attribute` (widget-custom-classes.php, lines 82-142): find `attr="` or
 * `attr='` in an HTML fragment and splice extra class tokens into that attribute's value,
 * either merging without repetitions (unique mode) or by one textual insertion (append mode).
 */
module AttributeMerge {
  import opened Wrappers
  import opened PhpStrings
  import opened PhpArrays

  const DoubleQuote: char := '"'
  const SingleQuote: char := '\''

  /** Where the attribute was found: the index of `attr=` and the quote that follows it. */
  datatype Location = Location(start: nat, quote: char)

  /** `attr=` followed by the quote, the string searched for (line 99). */
  function Needle(attr: string, quote: char): (n: string)
    ensures |n| == |attr| + 2 && n[|attr|] == '=' && n[|attr| + 1] == quote
  {
    attr + "=" + [quote]
  }

  /**
   * PHP treats the result of `stripos` as false when it is `false` or `0`: the attribute
   * occurs nowhere, or its first occurrence is at index 0.
   */
  ghost predicate NotFoundByStripos(str: string, needle: string)
  {
    MatchAt(str, needle, 0, true) || !Occurs(str, needle, true)
  }

  /**
   * Lines 85-96: the double-quoted form is tried first, then the single-quoted one; a match
   * at index 0 counts as not found.
   */
  function Locate(str: string, attr: string): (r: Option<Location>)
    ensures r.Some? ==> r.value.start > 0 && (r.value.quote == DoubleQuote || r.value.quote == SingleQuote)
    ensures r.Some? ==> MatchAt(str, Needle(attr, r.value.quote), r.value.start, true)
    ensures r.Some? ==> forall k: nat :: k < r.value.start ==> !MatchAt(str, Needle(attr, r.value.quote), k, true)
    ensures r.Some? && r.value.quote == SingleQuote ==> NotFoundByStripos(str, Needle(attr, DoubleQuote))
    ensures r.None? ==> NotFoundByStripos(str, Needle(attr, DoubleQuote)) && NotFoundByStripos(str, Needle(attr, SingleQuote))
  {
    var dq := StrIPos(str, Needle(attr, DoubleQuote));
    var sq := StrIPos(str, Needle(attr, SingleQuote));
    if dq.Some? && dq.value > 0 then Some(Location(dq.value, DoubleQuote))
    else if sq.Some? && sq.value > 0 then Some(Location(sq.value, SingleQuote))
    else None
  }

  /** Index just after the opening quote (line 106). */
  function ValueStart(attr: string, loc: Location): nat
  {
    loc.start + |attr| + 2
  }

  /** The byte before the value is the opening quote itself, whatever the case of `attr`. */
  lemma OpeningQuote(str: string, attr: string)
    requires Locate(str, attr).Some?
    ensures ValueStart(attr, Locate(str, attr).value) <= |str|
    ensures str[ValueStart(attr, Locate(str, attr).value) - 1] == Locate(str, attr).value.quote
  {
    var loc := Locate(str, attr).value;
    var n := Needle(attr, loc.quote);
    assert SameChar(str[loc.start + (|attr| + 1)], n[|attr| + 1], true);
    SameCharNonLetter(str[loc.start + |attr| + 1], loc.quote, true);
  }

  /** `s` with the bytes from `lo` up to `hi` replaced by `v` (the concatenation of line 129). */
  function Splice(s: string, lo: nat, hi: nat, v: string): (r: string)
    requires lo <= hi <= |s|
    ensures |r| == lo + |v| + (|s| - hi)
    ensures r[..lo] == s[..lo] && r[lo..lo + |v|] == v && r[lo + |v|..] == s[hi..]
  {
    var r := s[..lo] + v + s[hi..];
    assert r[lo..lo + |v|] == v;
    r
  }

  /** Unique mode needs a closing quote after the opening one (line 108). */
  predicate HasClosingQuote(str: string, attr: string)
  {
    match Locate(str, attr)
    case None => true
    case Some(loc) => StrPos(str, [loc.quote], ValueStart(attr, loc)).Some?
  }

  /**
   * The tokens of the merged attribute value (lines 110-120): the existing value split on
   * single spaces, followed by the extra tokens, cleaned of repetitions and empty tokens.
   */
  function MergedValue(value: string, extra: string): seq<string>
  {
    CleanTokens(Explode(value) + Explode(Trim(extra)))
  }

  /**
   * Unique-mode value: no token twice, no empty token, no token with a space; exactly the
   * non-empty tokens of the old value and of the extra content; the old value's tokens come
   * first, followed in order by the extra tokens not already present.
   */
  lemma MergedValueProperties(value: string, extra: string)
    ensures var m := MergedValue(value, extra);
      NoDup(m) &&
      (forall t :: t in m ==> !IsEmpty(t) && ' ' !in t) &&
      (forall t :: t in m <==> (t in Explode(value) || t in Explode(Trim(extra))) && !IsEmpty(t)) &&
      m == CleanTokens(Explode(value)) + CleanTokens(Missing(Explode(Trim(extra)), Explode(value)))
  {
    CleanTokensConcat(Explode(value), Explode(Trim(extra)));
  }

  /**
   * Unique mode (lines 105-129): the value between the opening quote and the next occurrence
   * of the same quote is replaced by the merged tokens joined with single spaces.
   */
  function UniqueMerge(str: string, attr: string, extra: string): string
    requires HasClosingQuote(str, attr)
  {
    match Locate(str, attr)
    case None => str
    case Some(loc) =>
      var start := ValueStart(attr, loc);
      var end := StrPos(str, [loc.quote], start).value;
      Splice(str, start, end, Implode(MergedValue(str[start..end], extra)))
  }

  /** Unique mode at a found attribute, for callers that already hold the location. */
  lemma UniqueMergeAt(str: string, attr: string, extra: string, loc: Location)
    requires HasClosingQuote(str, attr) && Locate(str, attr) == Some(loc)
    ensures var start, end := ValueStart(attr, loc), StrPos(str, [loc.quote], ValueStart(attr, loc)).value;
      0 < start <= end < |str| && str[start - 1] == loc.quote && str[end] == loc.quote &&
      (forall k :: start <= k < end ==> str[k] != loc.quote) &&
      UniqueMerge(str, attr, extra) == Splice(str, start, end, Implode(MergedValue(str[start..end], extra)))
  {
    var start := ValueStart(attr, loc);
    var end := StrPos(str, [loc.quote], start).value;
    OpeningQuote(str, attr);
    assert str[end] == [loc.quote][0];
    forall k | start <= k < end ensures str[k] != loc.quote {
      assert !MatchAt(str, [loc.quote], k, false);
    }
  }

  /**
   * Unique-mode boundaries: the fragment up to and including the opening quote and from the
   * closing quote (the same quote byte) on is kept; between them stands the merged value.
   */
  lemma UniqueMergeBoundaries(str: string, attr: string, extra: string)
    requires HasClosingQuote(str, attr)
    ensures Locate(str, attr).None? ==> UniqueMerge(str, attr, extra) == str
    ensures Locate(str, attr).Some? ==>
      var loc := Locate(str, attr).value;
      var r := UniqueMerge(str, attr, extra);
      var start, end := ValueStart(attr, loc), StrPos(str, [loc.quote], ValueStart(attr, loc)).value;
      var tail := |str| - end;
      start <= end < |str| && str[start - 1] == loc.quote && str[end] == loc.quote &&
      start + tail <= |r| && r[..start] == str[..start] && r[|r| - tail..] == str[end..] &&
      r[start..|r| - tail] == Implode(MergedValue(str[start..end], extra))
  {
    if Locate(str, attr).Some? {
      UniqueMergeAt(str, attr, extra, Locate(str, attr).value);
    }
  }

  /** `preg_replace` would read `$n` and `\n` in the replacement as back-references. */
  predicate NoBackReference(s: string)
  {
    '$' !in s && '\\' !in s
  }

  /** `preg_replace($pattern, $replacement, $s, 1)` with a literal pattern. */
  function ReplaceFirst(s: string, needle: string, replacement: string): string
  {
    match FindFrom(s, needle, 0, false)
    case None => s
    case Some(k) => s[..k] + replacement + s[k + |needle|..]
  }

  /**
   * Append mode (lines 101, 132-137): the first case-sensitive `attr=<quote>` becomes
   * `attr=<quote>` followed by the trimmed extra content and a space.
   */
  function AppendMerge(str: string, attr: string, extra: string): string
    requires NoBackReference(attr) && NoBackReference(extra)
  {
    match Locate(str, attr)
    case None => str
    case Some(loc) =>
      var needle := Needle(attr, loc.quote);
      ReplaceFirst(str, needle, needle + Trim(extra) + " ")
  }

  /**
   * Lines 113-120: each extra token that is non-empty and not yet present is appended to the
   * existing tokens, then repetitions and empty tokens are removed.
   */
  method MergeClassLists(existing: seq<string>, extras: seq<string>) returns (content: seq<string>)
    ensures content == CleanTokens(existing + extras)
  {
    content := existing;
    var i := 0;
    while i < |extras|
      invariant 0 <= i <= |extras|
      invariant CleanTokens(content + extras[i..]) == CleanTokens(existing + extras)
    {
      var token := extras[i];
      assert extras[i..] == [token] + extras[i + 1..];
      assert content + extras[i..] == content + [token] + extras[i + 1..];
      if !IsEmpty(token) && token !in content {
        content := content + [token];
      } else if IsEmpty(token) {
        CleanTokensSkipsEmpty(content, token, extras[i + 1..]);
      } else {
        CleanTokensSkipsSeen(content, token, extras[i + 1..]);
      }
      i := i + 1;
    }
    assert content + extras[i..] == content;
    content := ArrayFilter(ArrayUnique(content));
  }

  /**
   * `add_classes_to_attribute($str, $attr, $content_extra, $unique)`, step by step as the
   * source does it.
   */
  method AddClassesToAttribute(str: string, attr: string, contentExtra: string, unique: bool)
    returns (r: string)
    requires unique ==> HasClosingQuote(str, attr)
    requires !unique ==> NoBackReference(attr) && NoBackReference(contentExtra)
    ensures unique ==> r == UniqueMerge(str, attr, contentExtra)
    ensures !unique ==> r == AppendMerge(str, attr, contentExtra)
  {
    var loc := Locate(str, attr);
    if loc.None? {
      return str;
    }
    var quote := loc.value.quote;
    var needle := Needle(attr, quote);
    var extra := Trim(contentExtra);
    if unique {
      var start := loc.value.start + |needle|;
      var end := StrPos(str, [quote], start).value;
      var existing := Explode(str[start..end]);
      var extras := Explode(extra);
      var content := MergeClassLists(existing, extras);
      assert content == MergedValue(str[start..end], contentExtra);
      assert start == ValueStart(attr, loc.value);
      r := Splice(str, start, end, Implode(content));
      UniqueMergeAt(str, attr, contentExtra, loc.value);
    } else {
      r := ReplaceFirst(str, needle, needle + extra + " ");
      assert r == AppendMerge(str, attr, contentExtra);
    }
  }

  // ---------------------------------------------------------------------------------------
  // Locating the attribute

  /**
   * Not found: the attribute is missing exactly when, for both quote styles, `stripos`
   * yields `false` or `0`.
   */
  lemma LocateNoneIff(str: string, attr: string)
    ensures Locate(str, attr).None? <==>
      NotFoundByStripos(str, Needle(attr, DoubleQuote)) && NotFoundByStripos(str, Needle(attr, SingleQuote))
  {
    var loc := Locate(str, attr);
    if loc.Some? {
      var n := Needle(attr, loc.value.quote);
      assert MatchAt(str, n, loc.value.start, true) && !MatchAt(str, n, 0, true);
      assert Occurs(str, n, true);
    }
  }

  /** A missing attribute leaves the fragment byte-for-byte unchanged in both modes. */
  lemma NotFoundUnchanged(str: string, attr: string, extra: string)
    requires NotFoundByStripos(str, Needle(attr, DoubleQuote))
    requires NotFoundByStripos(str, Needle(attr, SingleQuote))
    ensures HasClosingQuote(str, attr) && UniqueMerge(str, attr, extra) == str
    ensures NoBackReference(attr) && NoBackReference(extra) ==> AppendMerge(str, attr, extra) == str
  {
    LocateNoneIff(str, attr);
  }

  /**
   * Quote choice: when the first case-insensitive `attr="` is at a non-zero index, the double
   * quote is chosen there, whatever single-quoted form occurs earlier.
   */
  lemma DoubleQuotePreferred(str: string, attr: string, i: nat)
    requires i > 0 && MatchAt(str, Needle(attr, DoubleQuote), i, true)
    requires forall k: nat :: k < i ==> !MatchAt(str, Needle(attr, DoubleQuote), k, true)
    ensures Locate(str, attr) == Some(Location(i, DoubleQuote))
  {
    FindFromIsFirst(str, Needle(attr, DoubleQuote), 0, true, i);
  }

  /** `stripos` returns `false` or `0` exactly in the cases `NotFoundByStripos` names. */
  lemma StriposFalsy(str: string, needle: string)
    requires NotFoundByStripos(str, needle)
    ensures StrIPos(str, needle) == None || StrIPos(str, needle) == Some(0)
  {
    if MatchAt(str, needle, 0, true) {
      FindFromIsFirst(str, needle, 0, true, 0);
    }
  }

  /**
   * The single quote is chosen at the first `attr='` (if it is at a non-zero index) exactly
   * when `stripos` reports no double-quoted form; a match at index 0 counts as none.
   */
  lemma SingleQuoteFallback(str: string, attr: string, j: nat)
    requires NotFoundByStripos(str, Needle(attr, DoubleQuote))
    requires j > 0 && MatchAt(str, Needle(attr, SingleQuote), j, true)
    requires forall k: nat :: k < j ==> !MatchAt(str, Needle(attr, SingleQuote), k, true)
    ensures Locate(str, attr) == Some(Location(j, SingleQuote))
  {
    StriposFalsy(str, Needle(attr, DoubleQuote));
    FindFromIsFirst(str, Needle(attr, SingleQuote), 0, true, j);
  }

  // ---------------------------------------------------------------------------------------
  // Append mode

  /** `preg_replace` with limit 1 replaces the first exact occurrence. */
  lemma ReplaceFirstAt(s: string, n: string, rep: string, k: nat)
    requires MatchAt(s, n, k, false) && forall j: nat :: j < k ==> !MatchAt(s, n, j, false)
    ensures k + |n| <= |s| && s[k..k + |n|] == n
    ensures ReplaceFirst(s, n, rep) == Splice(s, k, k + |n|, rep)
  {
    FindFromIsFirst(s, n, 0, false, k);
  }

  /** Replacing an exact occurrence of `n` by `n + ins` is inserting `ins` right after it. */
  lemma ReplaceIsInsert(s: string, k: nat, n: string, ins: string)
    requires k + |n| <= |s| && s[k..k + |n|] == n
    ensures Splice(s, k, k + |n|, n + ins) == Splice(s, k + |n|, k + |n|, ins)
  {
    var p := k + |n|;
    assert s[..p] == s[..k] + n;
    assert s[..k] + (n + ins) + s[p..] == (s[..k] + n) + ins + s[p..];
  }

  /**
   * Append mode inserts the trimmed extra content and one space right after the first
   * case-sensitive `attr=<quote>` (a splice of an empty span); nothing else changes.
   */
  lemma AppendMergeInserts(str: string, attr: string, extra: string, k: nat)
    requires NoBackReference(attr) && NoBackReference(extra)
    requires Locate(str, attr).Some?
    requires MatchAt(str, Needle(attr, Locate(str, attr).value.quote), k, false)
    requires forall j: nat :: j < k ==> !MatchAt(str, Needle(attr, Locate(str, attr).value.quote), j, false)
    ensures k + |attr| + 2 <= |str|
    ensures AppendMerge(str, attr, extra) == Splice(str, k + |attr| + 2, k + |attr| + 2, Trim(extra) + " ")
  {
    var n := Needle(attr, Locate(str, attr).value.quote);
    var ins := Trim(extra) + " ";
    assert n + Trim(extra) + " " == n + ins;
    assert AppendMerge(str, attr, extra) == ReplaceFirst(str, n, n + ins);
    ReplaceFirstAt(str, n, n + ins, k);
    ReplaceIsInsert(str, k, n, ins);
  }

  /**
   * The substitution of append mode is case-sensitive: a fragment whose attribute was found
   * only case-insensitively is returned unchanged.
   */
  lemma AppendMergeNeedsExactCase(str: string, attr: string, extra: string)
    requires NoBackReference(attr) && NoBackReference(extra)
    requires Locate(str, attr).Some?
    requires forall k: nat :: !MatchAt(str, Needle(attr, Locate(str, attr).value.quote), k, false)
    ensures AppendMerge(str, attr, extra) == str
  {
  }

  // ---------------------------------------------------------------------------------------
  // Unique mode is idempotent

  /** An attribute name as HTML writes it: no spaces and no quotes. */
  predicate PlainAttrName(attr: string)
  {
    ' ' !in attr && DoubleQuote !in attr && SingleQuote !in attr
  }

  /** Content that holds no quote byte (what `esc_attr` produces). */
  predicate QuoteFree(s: string)
  {
    DoubleQuote !in s && SingleQuote !in s
  }

  /** A needle holding a quote byte does not occur in quote-free content. */
  lemma QuoteFreeHasNoQuotedNeedle(s: string, needle: string, x: nat, ci: bool)
    requires QuoteFree(s) && x < |needle| && (needle[x] == DoubleQuote || needle[x] == SingleQuote)
    ensures !Occurs(s, needle, ci)
  {
    if Occurs(s, needle, ci) {
      var k: nat :| MatchAt(s, needle, k, ci);
      NeedleByteOccurs(s, needle, k, x, ci);
    }
  }

  /** A needle found in one piece of a split occurs in the split string. */
  lemma TokenOccurrence(s: string, t: string, needle: string, j: nat, ci: bool)
    requires t in Explode(s) && MatchAt(t, needle, j, ci)
    ensures Occurs(s, needle, ci)
  {
    var i := ExplodedTokenIsSlice(s, t);
    MatchInSlice(s, i, i + |t|, needle, j, ci);
    assert MatchAt(s, needle, i + j, ci);
  }

  /**
   * A space-free needle found in the merged value already occurs in the old value or in the
   * trimmed extra content: joining the tokens creates no new occurrence.
   */
  lemma MergedValueOccurrence(value: string, extra: string, needle: string, k: nat, ci: bool)
    requires |needle| > 0 && ' ' !in needle
    requires MatchAt(Implode(MergedValue(value, extra)), needle, k, ci)
    ensures Occurs(value, needle, ci) || Occurs(extra, needle, ci)
  {
    MergedValueProperties(value, extra);
    var t, j := ImplodeOccurrence(MergedValue(value, extra), needle, k, ci);
    if t in Explode(value) {
      TokenOccurrence(value, t, needle, j, ci);
    } else {
      TokenOccurrence(Trim(extra), t, needle, j, ci);
      TrimOccurrence(extra, needle, ci);
    }
  }

  /**
   * A needle found in a splice whose replaced span is enclosed by a byte the needle lacks
   * lies either in the kept parts (so it occurs in the original) or inside the new value.
   */
  lemma SpliceOccurrence(s: string, lo: nat, hi: nat, v: string, needle: string, k: nat, ci: bool)
    requires 0 < lo <= hi < |s| && |needle| > 0
    requires !('A' <= s[lo - 1] <= 'Z') && !('a' <= s[lo - 1] <= 'z') && s[lo - 1] !in needle
    requires s[hi] == s[lo - 1]
    requires MatchAt(Splice(s, lo, hi, v), needle, k, ci)
    ensures Occurs(s, needle, ci) || (lo <= k && MatchAt(v, needle, k - lo, ci))
  {
    var r := Splice(s, lo, hi, v);
    var n := |needle|;
    if k + n <= lo {
      PrefixMatch(r, s, lo, needle, k, ci);
    } else if k < lo {
      assert r[lo - 1] == r[..lo][lo - 1];
      SeparatorBreaksMatch(r, needle, k, lo - 1, ci);
    } else if k + n <= lo + |v| {
      MatchInSlice(r, lo, lo + |v|, needle, k - lo, ci);
    } else if k < lo + |v| {
      assert r[lo + |v|] == r[lo + |v|..][0] == s[hi];
      SeparatorBreaksMatch(r, needle, k, lo + |v|, ci);
    } else {
      var m := k - lo - |v|;
      MatchInSlice(r, lo + |v|, |r|, needle, m, ci);
      MatchInSlice(s, hi, |s|, needle, m, ci);
      assert r[lo + |v|..] == s[hi..];
      assert MatchAt(s, needle, hi + m, ci);
    }
  }

  /** The merged tokens are stable: merging the same extra content again changes nothing. */
  lemma MergedValueStable(value: string, extra: string)
    ensures MergedValue(Implode(MergedValue(value, extra)), extra) == MergedValue(value, extra)
  {
    var m := MergedValue(value, extra);
    var extras := Explode(Trim(extra));
    MergedValueProperties(value, extra);
    if |m| >= 1 {
      ExplodeImplode(m);
      FilterOfNonEmpty(m);
      CleanTokensAbsorbs(m, extras, m);
    } else {
      assert Explode(Implode(m)) == [""];
      FilterSnoc([], "");
      assert [] + [""] == [""];
      CleanTokensAbsorbs([""], extras, m);
    }
  }

  /** What the quote-style arguments of the idempotence proof need of `attr="`. */
  lemma PlainNeedle(attr: string)
    requires PlainAttrName(attr)
    ensures var dq := Needle(attr, DoubleQuote);
      SingleQuote !in dq && ' ' !in dq && dq[|attr| + 1] == DoubleQuote
  {
  }

  /** A byte that is one of the two quotes. */
  predicate IsQuote(c: char)
  {
    c == DoubleQuote || c == SingleQuote
  }

  /**
   * Splicing the merged value between two equal quote bytes creates no occurrence of a
   * needle that holds a quote but neither a space nor the enclosing quote.
   */
  lemma SpliceMergedNoNewOccurrence(str: string, start: nat, end: nat, extra: string, needle: string, x: nat, ci: bool)
    requires 0 < start <= end < |str| && IsQuote(str[start - 1]) && str[end] == str[start - 1]
    requires x < |needle| && IsQuote(needle[x]) && ' ' !in needle && str[start - 1] !in needle
    requires QuoteFree(extra) && !Occurs(str, needle, ci)
    ensures !Occurs(Splice(str, start, end, Implode(MergedValue(str[start..end], extra))), needle, ci)
  {
    var value := str[start..end];
    var v := Implode(MergedValue(value, extra));
    var r := Splice(str, start, end, v);
    if Occurs(r, needle, ci) {
      var k: nat :| MatchAt(r, needle, k, ci);
      SpliceOccurrence(str, start, end, v, needle, k, ci);
      MergedValueOccurrence(value, extra, needle, k - start, ci);
      if Occurs(value, needle, ci) {
        var m: nat :| MatchAt(value, needle, m, ci);
        MatchInSlice(str, start, end, needle, m, ci);
      }
      QuoteFreeHasNoQuotedNeedle(extra, needle, x, ci);
      assert false;
    }
  }

  /**
   * Splicing the merged value between two quote bytes leaves the next such quote right
   * after the merged value.
   */
  lemma SpliceMergedClosingQuote(str: string, start: nat, end: nat, extra: string)
    requires 0 < start <= end < |str| && IsQuote(str[end])
    requires forall k :: start <= k < end ==> str[k] != str[end]
    requires QuoteFree(extra)
    ensures var v := Implode(MergedValue(str[start..end], extra));
      StrPos(Splice(str, start, end, v), [str[end]], start) == Some(start + |v|)
  {
    var q := [str[end]];
    var value := str[start..end];
    var v := Implode(MergedValue(value, extra));
    var r := Splice(str, start, end, v);
    assert r[start + |v|] == r[start + |v|..][0] == str[end];
    assert MatchAt(r, q, start + |v|, false);
    forall k: nat | start <= k < start + |v| ensures !MatchAt(r, q, k, false) {
      if MatchAt(r, q, k, false) {
        MatchInSlice(r, start, start + |v|, q, k - start, false);
        MergedValueOccurrence(value, extra, q, k - start, false);
        if Occurs(value, q, false) {
          var m: nat :| MatchAt(value, q, m, false);
          MatchInSlice(str, start, end, q, m, false);
        }
        QuoteFreeHasNoQuotedNeedle(extra, q, 0, false);
        assert false;
      }
    }
    FindFromIsFirst(r, q, start, false, start + |v|);
  }

  /** Searching two strings that agree on a prefix holding the first match finds the same index. */
  lemma FirstMatchInPrefix(r: string, s: string, p: nat, needle: string, i: nat)
    requires p <= |r| && p <= |s| && r[..p] == s[..p] && i + |needle| <= p
    requires MatchAt(s, needle, i, true) && forall k: nat :: k < i ==> !MatchAt(s, needle, k, true)
    ensures StrIPos(r, needle) == Some(i)
  {
    PrefixMatch(r, s, p, needle, i, true);
    forall k: nat | k < i ensures !MatchAt(r, needle, k, true) {
      PrefixMatch(r, s, p, needle, k, true);
    }
    FindFromIsFirst(r, needle, 0, true, i);
  }

  /** After a unique merge the attribute is found at the same place with the same quote. */
  lemma LocateAfterUniqueMerge(str: string, attr: string, extra: string)
    requires HasClosingQuote(str, attr) && PlainAttrName(attr) && QuoteFree(extra)
    requires Locate(str, attr).Some?
    ensures Locate(UniqueMerge(str, attr, extra), attr) == Locate(str, attr)
  {
    var loc := Locate(str, attr).value;
    var start := ValueStart(attr, loc);
    var end := StrPos(str, [loc.quote], start).value;
    UniqueMergeAt(str, attr, extra, loc);
    var r := UniqueMerge(str, attr, extra);
    assert r[..start] == str[..start];
    var dq, sq := Needle(attr, DoubleQuote), Needle(attr, SingleQuote);
    if loc.quote == DoubleQuote {
      FirstMatchInPrefix(r, str, start, dq, loc.start);
    } else {
      FirstMatchInPrefix(r, str, start, sq, loc.start);
      if MatchAt(str, dq, 0, true) {
        FirstMatchInPrefix(r, str, start, dq, 0);
      } else {
        PlainNeedle(attr);
        SpliceMergedNoNewOccurrence(str, start, end, extra, dq, |attr| + 1, true);
        StriposFalsy(r, dq);
      }
    }
  }

  /** `s` with a span replaced by its own bytes is `s`. */
  lemma SpliceSame(s: string, lo: nat, hi: nat)
    requires lo <= hi <= |s|
    ensures Splice(s, lo, hi, s[lo..hi]) == s
  {
    assert s[..lo] + s[lo..hi] + s[hi..] == s;
  }

  /**
   * Unique mode is idempotent: merging the same extra content a second time gives the same
   * fragment, provided the attribute name holds no space or quote and the extra content no
   * quote (as after `esc_attr`).
   */
  lemma UniqueMergeIdempotent(str: string, attr: string, extra: string)
    requires HasClosingQuote(str, attr) && PlainAttrName(attr) && QuoteFree(extra)
    ensures HasClosingQuote(UniqueMerge(str, attr, extra), attr)
    ensures UniqueMerge(UniqueMerge(str, attr, extra), attr, extra) == UniqueMerge(str, attr, extra)
  {
    var r := UniqueMerge(str, attr, extra);
    if Locate(str, attr).Some? {
      var loc := Locate(str, attr).value;
      var start := ValueStart(attr, loc);
      var end := StrPos(str, [loc.quote], start).value;
      var v := Implode(MergedValue(str[start..end], extra));
      UniqueMergeAt(str, attr, extra, loc);
      assert r == Splice(str, start, end, v);
      LocateAfterUniqueMerge(str, attr, extra);
      SpliceMergedClosingQuote(str, start, end, extra);
      assert r[start..start + |v|] == v;
      UniqueMergeAt(r, attr, extra, loc);
      MergedValueStable(str[start..end], extra);
      SpliceSame(r, start, start + |v|);
    }
  }
}
