# Widget Custom Classes — a Dafny model of the front-end class merge

Widget Custom Classes is a WordPress plugin that lets a site owner give each widget instance
a space-separated list of CSS classes. At render time its `dynamic_sidebar_params` filter
`add_widget_custom_classes` reads the stored `classes` setting of the widget instance being
rendered, splits it on single spaces, passes the tokens through the `widget_css_classes`
filter, keeps each non-empty token once (`array_unique`, then `array_filter`), joins them
with single spaces and escapes the result with `esc_attr`. When that string is not empty it
is merged into the `class` attribute of the widget's `before_widget` wrapper markup by
`add_classes_to_attribute`.

`add_classes_to_attribute($str, $attr, $content_extra, $unique)` looks for `attr="`
(case-insensitively, with `stripos`) and, failing that, for `attr='`; an occurrence at index 0
counts as not found because PHP reads the returned `0` as false. A fragment without the
attribute is returned unchanged. In unique mode the value between the opening quote and the
next occurrence of the same quote is split on single spaces, the extra tokens that are
non-empty and new are appended, repetitions and empty tokens are removed and the value is
written back. In append mode (the default, and the mode the render-time filter uses) the first
case-sensitive `attr=<quote>` is replaced by itself followed by the trimmed extra content and
one space.

The model has five modules:

- `Wrappers` — the `Option` datatype.
- `PhpStrings` — the PHP string built-ins the core relies on: `stripos`/`strpos` (`FindFrom`),
  `explode(' ', …)`, `implode(' ', …)` and `trim`, with their round trips.
- `PhpArrays` — `array_unique`, `array_filter` (which drops `""` and `"0"`) and their
  composition `CleanTokens`, with its order, membership and idempotence laws.
- `AttributeMerge` — `add_classes_to_attribute`: locating the attribute, unique mode,
  append mode, and the imperative method that follows the source step by step.
- `WidgetClasses` — `add_widget_custom_classes`: collecting the stored tokens,
  normalisation, and the no-op / splice decision on the `$params` array.

Strings are `seq<char>` with one character per byte. The host's lookups (registered widgets,
the option store, the widget number) are replaced by parameters: the option array and the
instance number. The `widget_css_classes` filter chain is the function parameter
`contribute`, and `esc_attr` is the function parameter `escape`.

## Model

| member | source | states |
|---|---|---|
| PhpStrings.FindFrom | widget-custom-classes.php:85-89 | `stripos`/`strpos` from an offset: a result is a match at or after the offset, and no match lies between the offset and the result (none at all when nothing is returned) |
| PhpStrings.Explode | widget-custom-classes.php:50 | `explode(' ', …)` never returns an empty array and none of its pieces holds a space |
| PhpStrings.ImplodeExplode | widget-custom-classes.php:110 | joining the single-space pieces of a string with single spaces gives back the string |
| PhpStrings.ExplodeImplode | widget-custom-classes.php:122 | splitting the join of a non-empty list of space-free tokens gives back the tokens |
| PhpStrings.TrimIsCore | widget-custom-classes.php:101 | `trim` keeps a contiguous slice that neither starts nor ends with one of the six trim bytes and cuts only trim bytes on either side |
| PhpArrays.ArrayUnique | widget-custom-classes.php:120 | `array_unique` leaves no repetition and keeps exactly the elements of its input |
| PhpArrays.ArrayFilter | widget-custom-classes.php:120 | `array_filter` keeps exactly the elements that are neither `""` nor `"0"` and never grows the array |
| PhpArrays.CleanTokens | widget-custom-classes.php:62 | `array_filter(array_unique(…))` has no repetition, no empty token, and holds exactly the non-empty input tokens |
| PhpArrays.CleanTokensSnoc | widget-custom-classes.php:113-120 | appending one token adds it at the end exactly when it is non-empty and new, and changes nothing otherwise (first occurrence wins) |
| PhpArrays.CleanTokensConcat | widget-custom-classes.php:113-120 | cleaning existing tokens followed by extra ones gives the cleaned existing tokens followed by the cleaned extra tokens not already present |
| PhpArrays.CleanTokensAllEmpty | widget-custom-classes.php:62 | a list holding only `""` and `"0"` cleans to no tokens |
| PhpArrays.CleanTokensIdempotent | widget-custom-classes.php:120 | cleaning twice is cleaning once |
| AttributeMerge.Locate | widget-custom-classes.php:85-96 | the located attribute is at a non-zero index with one of the two quotes, is the first case-insensitive occurrence of `attr=<quote>`, the single quote is used only when the double-quoted form was reported false or 0, and nothing is found only when both forms were |
| AttributeMerge.LocateNoneIff | widget-custom-classes.php:85-96 | the attribute counts as missing exactly when, for both quotes, `stripos` yields false or 0 |
| AttributeMerge.NotFoundUnchanged | widget-custom-classes.php:93-96 | a missing attribute leaves the fragment unchanged in both modes |
| AttributeMerge.DoubleQuotePreferred | widget-custom-classes.php:85-88 | the first `attr="` at a non-zero index is chosen with the double quote, whatever single-quoted form occurs earlier |
| AttributeMerge.SingleQuoteFallback | widget-custom-classes.php:89-92 | when the double-quoted form is reported false or 0, the first `attr='` at a non-zero index is chosen with the single quote |
| AttributeMerge.OpeningQuote | widget-custom-classes.php:99-106 | the byte just before the value start is the chosen quote, whatever the case of the attribute name |
| AttributeMerge.MergedValueProperties | widget-custom-classes.php:110-122 | the merged value has no repetition, no empty token and no space inside a token, holds exactly the non-empty old and extra tokens, and lists the old tokens first followed in order by the new extra ones |
| AttributeMerge.UniqueMergeAt | widget-custom-classes.php:105-129 | at a found attribute the value lies strictly between the opening quote and the next same quote, with no such quote inside, and is replaced by the merged tokens |
| AttributeMerge.UniqueMergeBoundaries | widget-custom-classes.php:124-129 | unique mode keeps everything up to the opening quote and from the closing quote on, and puts the merged value between them |
| AttributeMerge.MergedValueStable | widget-custom-classes.php:110-122 | merging the same extra content into an already merged value gives the same tokens |
| AttributeMerge.LocateAfterUniqueMerge | widget-custom-classes.php:85-129 | after a unique merge the attribute is found at the same index with the same quote, for an attribute name without spaces or quotes and quote-free extra content (otherwise the merged value can create an earlier `attr="` that the next search finds) |
| AttributeMerge.UniqueMergeIdempotent | widget-custom-classes.php:103-129 | unique mode keeps a closing quote and is idempotent for an attribute name without spaces or quotes and quote-free extra content |
| AttributeMerge.AppendMergeInserts | widget-custom-classes.php:101-137 | append mode inserts the trimmed extra content and one space right after the first exact-case `attr=<quote>`, and changes nothing else |
| AttributeMerge.AppendMergeNeedsExactCase | widget-custom-classes.php:85-137 | a fragment whose attribute was found only case-insensitively is returned unchanged by append mode |
| AttributeMerge.MergeClassLists | widget-custom-classes.php:113-120 | the loop that appends each new non-empty extra token, followed by `array_filter(array_unique(…))`, yields the cleaned concatenation of old and extra tokens |
| AttributeMerge.AddClassesToAttribute | widget-custom-classes.php:82-142 | step by step, the function returns the unique-mode merge when asked for uniqueness and the append-mode merge otherwise |
| WidgetClasses.StoredClassTokensRoundTrip | widget-custom-classes.php:45-57 | the collected tokens hold no space and join back to the stored string; an unset, `""` or `"0"` setting gives no tokens |
| WidgetClasses.CollectStoredClasses | widget-custom-classes.php:45-57 | the loop pushing each piece of the split yields the stored class tokens |
| WidgetClasses.NormalisationProperties | widget-custom-classes.php:61-62 | the normalised tokens have no repetition and no empty token, are exactly the non-empty tokens given, keep first occurrences, and split back from their join |
| WidgetClasses.NormalisationExample | widget-custom-classes.php:48-62 | a stored setting of the form `"  foo  foo bar "` (leading, doubled and trailing spaces, a repeated class) splits into the seven pieces `"", "", foo, "", foo, bar, ""` and normalises to `foo bar`, for any two distinct non-empty space-free classes |
| WidgetClasses.NoClassesEmptyValue | widget-custom-classes.php:45-64 | when every token left after the filter chain is `""` or `"0"` and escaping maps `""` to `""`, the class string is `""` (so the markup is not touched) |
| WidgetClasses.StoredNormalisation | widget-custom-classes.php:48-62 | without filter contributions, the normalised tokens are the stored string's non-empty space-free pieces, once each, and split back from their join |
| WidgetClasses.AddWidgetCustomClasses | widget-custom-classes.php:29-74 | without `$params[0]`, or when the normalised class string is `""` or `"0"`, the array is returned unchanged; otherwise only `before_widget` is replaced, and it is set to the append-mode merge of the class string into its `class` attribute (which leaves markup without that attribute as it was) |

## Left out

- Hook registration (`add_action`, `add_filter`, `is_admin`), the admin form, `update_widget`
  and the widget's settings screen: they are host wiring and admin UI, not the class merge.
- The host lookups of lines 37-42 and 78 (`wp_get_sidebars_widgets`, the registered-widget
  global, `get_option`): the option array and the instance number are parameters.
- The `widget_css_classes` filter chain and `esc_attr` are function parameters; their own
  behaviour is not modelled.
- Characters are bytes: the model's `Lower` folds only `A`-`Z`, which is what `stripos` does
  from PHP 8.2 on; the locale-dependent folding of bytes at or above 0x80 in older PHP is not
  modelled, and the model does not exclude characters above 0xFF, which a PHP byte string
  cannot hold.
- The `(string)` cast of the stored setting: stored values are strings in the model.
- AttributeMerge.UniqueMerge: requires a closing quote after the opening one; without one the
  source computes a negative length for `substr`, which is not modelled.
- AttributeMerge.AppendMerge: requires that neither the attribute name nor the extra content
  holds `$` or `\`, because `preg_replace` would read those as back-references.
- AttributeMerge.AddClassesToAttribute: carries the two requirements above, one per mode.
- WidgetClasses.AddWidgetCustomClasses: requires `before_widget` to be set in `$params[0]` and
  the normalised class string to be free of back-reference bytes; a missing `before_widget`
  (a PHP notice and a `null` written back) is not modelled.
- AttributeMerge.UniqueMergeIdempotent: is stated only for attribute names without spaces or
  quotes and quote-free extra content; with extra content such as `class="x` the source is
  not idempotent.
- The render-time filter calls `add_classes_to_attribute` without its fourth argument, so it
  uses append mode; the plugin itself never calls unique mode. `AddWidgetCustomClasses` uses
  append mode, and unique mode is modelled and proved on its own.
