/** How `init` finds the image: an explicitly configured image wins; otherwise the URL is taken
    from the element's CSS `background-image` value with the regular expression
    `/url\(["']?([^"']*)["']?\)/i`, modelled here with the backtracking order of JavaScript's
    regular expressions. */
module ImageUrl {
  import opened Wrappers

  /** The two errors `init` raises. */
  datatype UrlError =
    | NoBackgroundImage  // no image configured and an empty `background-image` value
    | NotRetrievable     // the value has no `url(...)` the expression accepts

  /** The message of each error, as thrown. */
  function Message(e: UrlError): (r: string)
  {
    match e
    case NoBackgroundImage => "No background image available"
    case NotRetrievable => "Background image could not be retrieved from CSS property"
  }

  /** The characters the class `["']` accepts. */
  predicate IsQuote(c: char)
  {
    c == '"' || c == '\''
  }

  /** `s[i..]` starts with `url(`, the letters in either case (the `i` flag). */
  predicate UrlOpenAt(s: string, i: nat)
  {
    i + 4 <= |s|
    && (s[i] == 'u' || s[i] == 'U')
    && (s[i + 1] == 'r' || s[i + 1] == 'R')
    && (s[i + 2] == 'l' || s[i + 2] == 'L')
    && s[i + 3] == '('
  }

  /** Where the longest run of non-quote characters from `st` ends: how far the greedy
      `[^"']*` first reaches. */
  function RunEnd(s: string, st: nat): (e: nat)
    requires st <= |s|
    ensures st <= e <= |s|
    ensures forall k :: st <= k < e ==> !IsQuote(s[k])
    ensures e == |s| || IsQuote(s[e])
    decreases |s| - st
  {
    if st == |s| || IsQuote(s[st]) then st else RunEnd(s, st + 1)
  }

  /** The last `)` in `s[st..e]`, if any. */
  function LastClose(s: string, st: nat, e: nat): (r: Option<nat>)
    requires st <= e <= |s|
    ensures r.Some? ==>
      st <= r.value < e && s[r.value] == ')' && forall m :: r.value < m < e ==> s[m] != ')'
    ensures r.None? ==> forall m :: st <= m < e ==> s[m] != ')'
    decreases e - st
  {
    if e == st then None
    else if s[e - 1] == ')' then Some(e - 1)
    else LastClose(s, st, e - 1)
  }

  /** The group `([^"']*)`, started at `st`, can end at `k` and let `["']?\)` match after it:
      no quote in `s[st..k]`, then `)` or a quote and `)`. */
  predicate GroupEndsAt(s: string, st: nat, k: nat)
  {
    st <= k < |s| && (forall m :: st <= m < k ==> !IsQuote(s[m]))
    && (s[k] == ')' || (IsQuote(s[k]) && k + 1 < |s| && s[k + 1] == ')'))
  }

  /** The group can end nowhere after `st`: the rest of the expression fails from there. */
  predicate NoGroupFrom(s: string, st: nat)
  {
    forall k: nat :: k < |s| ==> !GroupEndsAt(s, st, k)
  }

  /** The group `([^"']*)` followed by `["']?\)`, matched from `st`. The group first takes the
      whole run of non-quote characters and gives characters back one at a time: with the
      whole run the run must end in a quote and `)`; with less, the next character must be `)`.
      So the group ends before the quote of a quote and `)`, or else before the run's last
      `)`. */
  function GroupFrom(s: string, st: nat): (r: Option<string>)
    requires st <= |s|
    ensures r.Some? ==> GroupEndsAt(s, st, st + |r.value|) && r.value == s[st..st + |r.value|]
    ensures r.Some? ==> forall k: nat :: GroupEndsAt(s, st, k) ==> k <= st + |r.value|
    ensures r.None? <==> NoGroupFrom(s, st)
  {
    var e := RunEnd(s, st);
    if e + 1 < |s| && s[e + 1] == ')' then
      assert GroupEndsAt(s, st, e);
      Some(s[st..e])
    else
      var k := LastClose(s, st, e);
      if k.Some? then
        assert GroupEndsAt(s, st, k.value);
        Some(s[st..k.value])
      else None
  }

  /** The expression matched at `i`, where `url(` starts: the optional opening quote is taken
      if present, and left out if the rest fails with it. */
  function MatchAt(s: string, i: nat): (r: Option<string>)
    requires UrlOpenAt(s, i)
    ensures r.Some? ==>
              (GroupEndsAt(s, i + 4, i + 4 + |r.value|) && r.value == s[i + 4..i + 4 + |r.value|])
              || (i + 4 < |s| && IsQuote(s[i + 4]) && GroupEndsAt(s, i + 5, i + 5 + |r.value|)
                  && r.value == s[i + 5..i + 5 + |r.value|])
    ensures i + 4 < |s| && IsQuote(s[i + 4]) && !NoGroupFrom(s, i + 5) ==> r == GroupFrom(s, i + 5)
    ensures !(i + 4 < |s| && IsQuote(s[i + 4]) && !NoGroupFrom(s, i + 5)) ==> r == GroupFrom(s, i + 4)
    ensures r.None? <==> NoGroupFrom(s, i + 4) && (i + 4 < |s| && IsQuote(s[i + 4]) ==> NoGroupFrom(s, i + 5))
  {
    var j := i + 4;
    if j < |s| && IsQuote(s[j]) && GroupFrom(s, j + 1).Some? then GroupFrom(s, j + 1)
    else GroupFrom(s, j)
  }

  /** `s.match(...)`'s first group, searching for the leftmost position from `i` where the
      expression matches. */
  function Match(s: string, i: nat): (r: Option<string>)
    ensures r.None? ==> forall k: nat :: i <= k && UrlOpenAt(s, k) ==> MatchAt(s, k).None?
    decreases |s| - i
  {
    if |s| < i + 4 then None
    else if UrlOpenAt(s, i) && MatchAt(s, i).Some? then MatchAt(s, i)
    else Match(s, i + 1)
  }

  /** The image `init` settles on. `image` is the configured image (`None` for `null`); the
      empty string counts as no image, as in JavaScript. `cssImage` is the element's
      `background-image` value. */
  function ResolveImage(image: Option<string>, cssImage: string): (r: Result<string, UrlError>)
    ensures image.Some? && image.value != [] ==> r == Success(image.value)
  {
    if image.Some? && image.value != [] then Success(image.value)
    else if cssImage == [] then Failure(NoBackgroundImage)
    else
      var found := Match(cssImage, 0);
      if found.None? then Failure(NotRetrievable) else Success(found.value)
  }

  // ---------------------------------------------------------------- facts

  /** Without a configured image and without a `background-image` value, `init` fails with
      "No background image available". */
  lemma NoImageAvailable(image: Option<string>)
    requires image.None? || image.value == []
    ensures ResolveImage(image, []) == Failure(NoBackgroundImage)
    ensures Message(ResolveImage(image, []).error) == "No background image available"
  {
  }

  /** Whatever the group captures holds no quote. */
  lemma GroupHasNoQuote(s: string, st: nat)
    requires st <= |s| && GroupFrom(s, st).Some?
    ensures forall k :: 0 <= k < |GroupFrom(s, st).value| ==> !IsQuote(GroupFrom(s, st).value[k])
  {
    var e := RunEnd(s, st);
    var g := GroupFrom(s, st).value;
    assert forall k :: 0 <= k < |g| ==> g[k] == s[st + k];
  }

  /** The group matched at a `url(` holds no quote. */
  lemma MatchAtHasNoQuote(s: string, i: nat)
    requires UrlOpenAt(s, i) && MatchAt(s, i).Some?
    ensures forall m :: 0 <= m < |MatchAt(s, i).value| ==> !IsQuote(MatchAt(s, i).value[m])
  {
    var j := i + 4;
    if j < |s| && IsQuote(s[j]) && GroupFrom(s, j + 1).Some? {
      GroupHasNoQuote(s, j + 1);
    } else {
      GroupHasNoQuote(s, j);
    }
  }

  /** The search stops at the leftmost `url(` from `i` where the expression matches. */
  lemma {:induction false} MatchLeftmost(s: string, i: nat)
    requires Match(s, i).Some?
    ensures exists k: nat ::
              i <= k && UrlOpenAt(s, k) && MatchAt(s, k) == Match(s, i)
              && forall m: nat :: i <= m < k && UrlOpenAt(s, m) ==> MatchAt(s, m).None?
    decreases |s| - i
  {
    if UrlOpenAt(s, i) && MatchAt(s, i).Some? {
      assert Match(s, i) == MatchAt(s, i);
      assert i <= i && UrlOpenAt(s, i) && MatchAt(s, i) == Match(s, i);
    } else {
      assert Match(s, i) == Match(s, i + 1);
      MatchLeftmost(s, i + 1);
      var k: nat :| i + 1 <= k && UrlOpenAt(s, k) && MatchAt(s, k) == Match(s, i + 1)
        && forall m: nat :: i + 1 <= m < k && UrlOpenAt(s, m) ==> MatchAt(s, m).None?;
      assert forall m: nat :: i <= m < k && UrlOpenAt(s, m) ==> MatchAt(s, m).None?;
    }
  }

  /** A match is the expression matched at the leftmost `url(` from `i` where it matches at
      all, and its group holds no quote. */
  lemma MatchSound(s: string, i: nat)
    requires Match(s, i).Some?
    ensures exists k: nat ::
              i <= k && UrlOpenAt(s, k) && MatchAt(s, k) == Match(s, i)
              && forall m: nat :: i <= m < k && UrlOpenAt(s, m) ==> MatchAt(s, m).None?
    ensures forall m :: 0 <= m < |Match(s, i).value| ==> !IsQuote(Match(s, i).value[m])
  {
    MatchLeftmost(s, i);
    var k: nat :| i <= k && UrlOpenAt(s, k) && MatchAt(s, k) == Match(s, i)
      && forall m: nat :: i <= m < k && UrlOpenAt(s, m) ==> MatchAt(s, m).None?;
    MatchAtHasNoQuote(s, k);
  }

  /** A value without any `url(` from `i` on has no match there. */
  lemma {:induction false} NoUrlNoMatch(s: string, i: nat)
    requires forall k: nat :: i <= k ==> !UrlOpenAt(s, k)
    ensures Match(s, i) == None
    decreases |s| - i
  {
    if |s| >= i + 4 {
      NoUrlNoMatch(s, i + 1);
    }
  }

  /** Without a configured image, a non-empty value that contains no `url(` makes `init`
      fail with "Background image could not be retrieved from CSS property". */
  lemma NoUrlNotRetrievable(image: Option<string>, cssImage: string)
    requires image.None? || image.value == []
    requires cssImage != [] && forall k: nat :: !UrlOpenAt(cssImage, k)
    ensures ResolveImage(image, cssImage) == Failure(NotRetrievable)
  {
    NoUrlNoMatch(cssImage, 0);
  }

  /** Without a configured image, a non-empty value in which no `url(` starts a match makes
      `init` fail with "Background image could not be retrieved from CSS property". */
  lemma NoMatchNotRetrievable(image: Option<string>, cssImage: string)
    requires image.None? || image.value == []
    requires cssImage != [] && forall k: nat :: UrlOpenAt(cssImage, k) ==> MatchAt(cssImage, k).None?
    ensures ResolveImage(image, cssImage) == Failure(NotRetrievable)
  {
    if Match(cssImage, 0).Some? {
      MatchSound(cssImage, 0);
    }
  }

  /** `url(abc` has a `url(` but no closing parenthesis, so it is not retrievable. */
  lemma UnclosedExample(css: string)
    requires css == "url(" + "abc"
    ensures ResolveImage(None, css) == Failure(NotRetrievable)
  {
    forall k: nat | UrlOpenAt(css, k) ensures MatchAt(css, k).None? {
      assert k == 0;
      assert forall m: nat :: m < |css| ==> css[m] != ')';
    }
    NoMatchNotRetrievable(None, css);
  }

  /** A run of non-quote characters reaches up to the next quote. */
  lemma {:induction false} RunEndAt(s: string, st: nat, e: nat)
    requires st <= e < |s| && IsQuote(s[e]) && forall k :: st <= k < e ==> !IsQuote(s[k])
    ensures RunEnd(s, st) == e
    decreases e - st
  {
    if st < e {
      RunEndAt(s, st + 1, e);
    }
  }

  /** A run of non-quote characters reaching the end of the string. */
  lemma {:induction false} RunEndAtEnd(s: string, st: nat)
    requires st <= |s| && forall k :: st <= k < |s| ==> !IsQuote(s[k])
    ensures RunEnd(s, st) == |s|
    decreases |s| - st
  {
    if st < |s| {
      RunEndAtEnd(s, st + 1);
    }
  }

  /** `url("u")`, `url('u')` (or one quote of each kind) yields `u` when `u` holds no quote. */
  lemma QuotedUrl(css: string, open: char, u: string, close: char)
    requires IsQuote(open) && IsQuote(close) && forall k :: 0 <= k < |u| ==> !IsQuote(u[k])
    requires css == "url(" + [open] + u + [close] + ")"
    ensures ResolveImage(None, css) == Success(u)
  {
    assert UrlOpenAt(css, 0);
    assert forall k :: 5 <= k < 5 + |u| ==> css[k] == u[k - 5];
    RunEndAt(css, 5, 5 + |u|);
    assert css[5..5 + |u|] == u;
  }

  /** `url(u)` yields `u` when `u` holds no quote; it may even hold `)`. */
  lemma BareUrl(css: string, u: string)
    requires forall k :: 0 <= k < |u| ==> !IsQuote(u[k])
    requires css == "url(" + u + ")"
    ensures ResolveImage(None, css) == Success(u)
  {
    assert UrlOpenAt(css, 0);
    assert forall k :: 4 <= k < 4 + |u| ==> css[k] == u[k - 4];
    RunEndAtEnd(css, 4);
    assert LastClose(css, 4, |css|) == Some(|css| - 1);
    assert css[4..|css| - 1] == u;
  }

  /** With two unquoted layers, the greedy group runs to the last `)`: `init` takes
      `a), url(b` as the URL. */
  lemma TwoLayersExample(css: string)
    requires css == "url(a), url(b)"
    ensures ResolveImage(None, css) == Success("a), url(b")
  {
    assert UrlOpenAt(css, 0);
    RunEndAtEnd(css, 4);
    assert LastClose(css, 4, |css|) == Some(|css| - 1);
    assert css[4..|css| - 1] == "a), url(b";
  }

  /** The usual value of an element without a background image, `none`, is not retrievable. */
  lemma NoneValueExample(css: string)
    requires css == "none"
    ensures ResolveImage(None, css) == Failure(NotRetrievable)
  {
    assert !UrlOpenAt(css, 0);
    NoUrlNotRetrievable(None, css);
  }
}
