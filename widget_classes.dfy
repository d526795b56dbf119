/**
 * `add_widget_custom_classes` (widget-custom-classes.php, lines 29-74): the render-time filter
 * that reads a widget instance's stored `classes` string, normalises it into a token list and
 * merges it into the `before_widget` wrapper markup.
 *
 * The host's global lookups (registered widgets, option store) are replaced by the
 * instance's settings map and number as parameters; the `widget_css_classes` filter chain is
 * the function `contribute`, and `esc_attr` is the function `escape`.
 */
module WidgetClasses {
  import opened Wrappers
  import opened PhpStrings
  import opened PhpArrays
  import opened AttributeMerge

  /** One widget instance's settings record. */
  type Settings = map<string, string>

  /** The argument array handed to `dynamic_sidebar_params`: index to sidebar arguments. */
  type Params = map<int, map<string, string>>

  const ClassesKey: string := "classes"
  const BeforeWidget: string := "before_widget"
  const ClassAttr: string := "class"

  /** `$widget_opt[$widget_num]['classes']` (line 48); `None` when it is not set. */
  function StoredClasses(options: map<int, Settings>, number: int): Option<string>
  {
    if number in options && ClassesKey in options[number] then Some(options[number][ClassesKey]) else None
  }

  /** Lines 45-57: the stored string split on single spaces, or no tokens when it is empty. */
  function StoredClassTokens(stored: Option<string>): seq<string>
  {
    if stored.Some? && !IsEmpty(stored.value) then Explode(stored.value) else []
  }

  /**
   * The stored tokens hold no space, and joining them with single spaces gives back the
   * stored string; an unset, `""` or `"0"` value gives no tokens.
   */
  lemma StoredClassTokensRoundTrip(stored: Option<string>)
    ensures forall t :: t in StoredClassTokens(stored) ==> ' ' !in t
    ensures stored.Some? && !IsEmpty(stored.value) ==> Implode(StoredClassTokens(stored)) == stored.value
    ensures stored.None? || IsEmpty(stored.value) ==> StoredClassTokens(stored) == []
  {
    if stored.Some? && !IsEmpty(stored.value) {
      ImplodeExplode(stored.value);
    }
  }

  /** Lines 45-57 step by step: each piece of the split is pushed onto `classes`. */
  method CollectStoredClasses(stored: Option<string>) returns (classes: seq<string>)
    ensures classes == StoredClassTokens(stored)
  {
    classes := [];
    if stored.Some? && !IsEmpty(stored.value) {
      var customClasses := Explode(stored.value);
      var i := 0;
      while i < |customClasses|
        invariant 0 <= i <= |customClasses|
        invariant classes == customClasses[..i]
      {
        classes := classes + [customClasses[i]];
        i := i + 1;
      }
      assert customClasses[..i] == customClasses;
    }
  }

  /** Line 62: `esc_attr(implode(' ', array_filter(array_unique($classes))))`. */
  function NormalisedClasses(classes: seq<string>, escape: string -> string): string
  {
    escape(Implode(CleanTokens(classes)))
  }

  /** The value merged into `before_widget`: the stored tokens through the filter chain, normalised. */
  function ClassAttributeValue(stored: Option<string>, contribute: seq<string> -> seq<string>, escape: string -> string): string
  {
    NormalisedClasses(contribute(StoredClassTokens(stored)), escape)
  }

  /**
   * Normalisation: the joined tokens contain no repetition and no empty token, are exactly
   * the non-empty tokens given, keep each at its first occurrence, and a single-space split
   * of the join gives them back when none of them holds a space.
   */
  lemma NormalisationProperties(classes: seq<string>, x: string)
    ensures var t := CleanTokens(classes);
      NoDup(t) && (forall s :: s in t ==> !IsEmpty(s)) &&
      (forall s :: s in t <==> s in classes && !IsEmpty(s))
    ensures CleanTokens(classes + [x]) ==
      if IsEmpty(x) || x in classes then CleanTokens(classes) else CleanTokens(classes) + [x]
    ensures (forall s :: s in classes ==> ' ' !in s) && CleanTokens(classes) != [] ==>
      Explode(Implode(CleanTokens(classes))) == CleanTokens(classes)
  {
    CleanTokensSnoc(classes, x);
    if (forall s :: s in classes ==> ' ' !in s) && CleanTokens(classes) != [] {
      ExplodeImplode(CleanTokens(classes));
    }
  }

  /**
   * No class to add: when every token left after the filter chain is `""` or `"0"` (an unset
   * or empty setting and no contributions, say) and escaping keeps `""` as `""` (as `esc_attr`
   * does), the class string is `""`, so the markup is left alone.
   */
  lemma NoClassesEmptyValue(stored: Option<string>, contribute: seq<string> -> seq<string>, escape: string -> string)
    requires escape("") == ""
    requires forall x :: x in contribute(StoredClassTokens(stored)) ==> IsEmpty(x)
    ensures ClassAttributeValue(stored, contribute, escape) == ""
  {
    CleanTokensAllEmpty(contribute(StoredClassTokens(stored)));
  }

  /**
   * With no filter contributions, the normalised tokens are the stored string's single-space
   * pieces without repetitions and without `""` and `"0"`, each at its first occurrence.
   */
  lemma StoredNormalisation(stored: string)
    ensures var t := CleanTokens(StoredClassTokens(Some(stored)));
      NoDup(t) && (forall s :: s in t ==> !IsEmpty(s) && ' ' !in s) &&
      (forall s :: s in t <==> s in Explode(stored) && !IsEmpty(s)) &&
      (t != [] ==> Explode(Implode(t)) == t)
  {
    var t := CleanTokens(StoredClassTokens(Some(stored)));
    if t != [] {
      ExplodeImplode(t);
    }
  }

  /** Splitting `a + " " + b` with `a` space-free, given the pieces of `b`. */
  lemma SplitStep(a: string, b: string, rest: seq<string>)
    requires ' ' !in a && Explode(b) == rest
    ensures Explode(a + " " + b) == [a] + rest
  {
    ExplodeConcat(a, b);
  }

  /** The single-space pieces of `"  " + foo + "  " + foo + " " + bar + " "`. */
  lemma ExampleSplit(foo: string, bar: string)
    requires ' ' !in foo && ' ' !in bar
    ensures Explode(" " + (" " + (foo + " " + (" " + (foo + " " + (bar + " ")))))) == ["", "", foo, "", foo, bar, ""]
  {
    var s1 := bar + " ";
    ExplodeNoSpace("");
    assert s1 == bar + " " + "";
    SplitStep(bar, "", [""]);
    var s2 := foo + " " + s1;
    SplitStep(foo, s1, [bar, ""]);
    var s3 := " " + s2;
    assert s3 == "" + " " + s2;
    SplitStep("", s2, [foo, bar, ""]);
    var s4 := foo + " " + s3;
    SplitStep(foo, s3, ["", foo, bar, ""]);
    var s5 := " " + s4;
    assert s5 == "" + " " + s4;
    SplitStep("", s4, [foo, "", foo, bar, ""]);
    var s6 := " " + s5;
    assert s6 == "" + " " + s5;
    SplitStep("", s5, ["", foo, "", foo, bar, ""]);
  }

  /** The first three pieces of the example clean to `[foo]`. */
  lemma ExampleCleanFoo(e: string, foo: string)
    requires IsEmpty(e) && !IsEmpty(foo)
    ensures CleanTokens([e, e, foo]) == [foo]
  {
    CleanTokensAllEmpty([e, e]);
    CleanTokensSnoc([e, e], foo);
    assert [e, e, foo] == [e, e] + [foo];
  }

  /** The first four pieces of the example clean to `[foo]`. */
  lemma ExampleCleanFirst(e: string, foo: string)
    requires IsEmpty(e) && !IsEmpty(foo)
    ensures CleanTokens([e, e, foo, e]) == [foo]
  {
    ExampleCleanFoo(e, foo);
    CleanTokensSkipsEmpty([e, e, foo], e, []);
    assert [e, e, foo, e] == [e, e, foo] + [e] + [];
    assert [e, e, foo] + [] == [e, e, foo];
  }

  /** The repeated `foo` is skipped. */
  lemma ExampleCleanRepeat(e: string, foo: string)
    requires IsEmpty(e) && !IsEmpty(foo)
    ensures CleanTokens([e, e, foo, e, foo]) == [foo]
  {
    ExampleCleanFirst(e, foo);
    CleanTokensSkipsSeen([e, e, foo, e], foo, []);
    assert [e, e, foo, e, foo] == [e, e, foo, e] + [foo] + [];
    assert [e, e, foo, e] + [] == [e, e, foo, e];
  }

  /** `bar` is appended after `foo`. */
  lemma ExampleCleanBar(e: string, foo: string, bar: string)
    requires IsEmpty(e) && !IsEmpty(foo) && !IsEmpty(bar) && foo != bar
    ensures CleanTokens([e, e, foo, e, foo, bar]) == [foo, bar]
  {
    ExampleCleanRepeat(e, foo);
    CleanTokensSnoc([e, e, foo, e, foo], bar);
    assert [e, e, foo, e, foo, bar] == [e, e, foo, e, foo] + [bar];
  }

  /** All seven pieces of the example clean to `[foo, bar]`. */
  lemma ExampleClean(e: string, foo: string, bar: string)
    requires IsEmpty(e) && !IsEmpty(foo) && !IsEmpty(bar) && foo != bar
    ensures CleanTokens([e, e, foo, e, foo, bar, e]) == [foo, bar]
  {
    ExampleCleanBar(e, foo, bar);
    CleanTokensSkipsEmpty([e, e, foo, e, foo, bar], e, []);
    assert [e, e, foo, e, foo, bar, e] == [e, e, foo, e, foo, bar] + [e] + [];
    assert [e, e, foo, e, foo, bar] + [] == [e, e, foo, e, foo, bar];
  }

  /**
   * The normalisation example: a stored setting `"  foo  foo bar "` (two leading spaces, a
   * doubled space, a repeated class, a trailing space) splits into seven pieces and normalises
   * to `"foo bar"`; here `foo` and `bar` stand for any two distinct non-empty space-free classes.
   */
  lemma NormalisationExample(foo: string, bar: string)
    requires ' ' !in foo && ' ' !in bar && !IsEmpty(foo) && !IsEmpty(bar) && foo != bar
    ensures var stored := " " + (" " + (foo + " " + (" " + (foo + " " + (bar + " ")))));
      StoredClassTokens(Some(stored)) == ["", "", foo, "", foo, bar, ""] &&
      Implode(CleanTokens(StoredClassTokens(Some(stored)))) == foo + " " + bar
  {
    ExampleSplit(foo, bar);
    ExampleClean("", foo, bar);
  }

  /**
   * `add_widget_custom_classes($params)`: nothing changes when `$params[0]` is unset or the
   * normalised class string is empty; otherwise only `$params[0]['before_widget']` changes,
   * to the append-mode merge of the class string into its `class` attribute.
   */
  method AddWidgetCustomClasses(params: Params, options: map<int, Settings>, number: int,
                                contribute: seq<string> -> seq<string>, escape: string -> string)
    returns (r: Params)
    requires 0 in params ==> BeforeWidget in params[0]
    requires 0 in params ==> NoBackReference(ClassAttributeValue(StoredClasses(options, number), contribute, escape))
    ensures 0 !in params ==> r == params
    ensures 0 in params ==> r.Keys == params.Keys && (forall i :: i in params && i != 0 ==> r[i] == params[i])
    ensures 0 in params ==> r[0].Keys == params[0].Keys
    ensures 0 in params ==> forall key :: key in params[0] && key != BeforeWidget ==> r[0][key] == params[0][key]
    ensures IsEmpty(ClassAttributeValue(StoredClasses(options, number), contribute, escape)) ==> r == params
    ensures 0 in params ==>
      var v := ClassAttributeValue(StoredClasses(options, number), contribute, escape);
      r[0][BeforeWidget] == if IsEmpty(v) then params[0][BeforeWidget] else AppendMerge(params[0][BeforeWidget], ClassAttr, v)
  {
    if 0 !in params {
      return params;
    }
    var classes := CollectStoredClasses(StoredClasses(options, number));
    classes := contribute(classes);
    var value := escape(Implode(ArrayFilter(ArrayUnique(classes))));
    r := params;
    if !IsEmpty(value) {
      var before := AddClassesToAttribute(params[0][BeforeWidget], ClassAttr, value, false);
      r := params[0 := params[0][BeforeWidget := before]];
    }
  }
}
