/** `TestStockIcons`: a source file may not name a GTK stock icon.  The check
    takes the first match of each of two patterns in the file and requires
    the captured name to be on a white list built from the GTK setting keys. */
module StockIcons {
  import opened Text

  // ---------------------------------------------------------------------
  // The two patterns

  /** `(Gtk\.STOCK_[_A-Z]*)` and `["'](gtk-[\-a-z]*)`, in the order the
      fixture lists them. */
  datatype Pattern = StockConstant | QuotedName

  const Patterns: seq<Pattern> := [StockConstant, QuotedName]

  /** The literal text that opens each capture. */
  function Literal(p: Pattern): string
  {
    match p
    case StockConstant => "Gtk.STOCK_"
    case QuotedName => "gtk-"
  }

  /** The characters of the starred class after the literal. */
  predicate InRun(p: Pattern, c: char)
  {
    match p
    case StockConstant => c == '_' || 'A' <= c <= 'Z'
    case QuotedName => c == '-' || 'a' <= c <= 'z'
  }

  predicate IsQuote(c: char)
  {
    c == '"' || c == '\''
  }

  /** Characters the pattern consumes before the capture: the quote of `QuotedName`. */
  function Lead(p: Pattern): nat
  {
    if p == QuotedName then 1 else 0
  }

  /** The pattern matches at `i`: the quote, if any, and then the literal. */
  predicate MatchesAt(data: string, p: Pattern, i: nat)
  {
    && (p == QuotedName ==> i < |data| && IsQuote(data[i]))
    && OccursAt(data, Literal(p), i + Lead(p))
  }

  /** `re.search` scans left to right: the first `i` at or after `from` where
      the pattern matches. */
  function FindFrom(data: string, p: Pattern, from: nat): (r: Option<nat>)
    requires from <= |data|
    ensures r.Some? ==> from <= r.value && MatchesAt(data, p, r.value)
    ensures r.Some? ==> forall q :: from <= q < r.value ==> !MatchesAt(data, p, q)
    ensures r.None? ==> forall q :: from <= q ==> !MatchesAt(data, p, q)
    decreases |data| - from
  {
    if from == |data| then
      assert |Literal(p)| > 0;
      None
    else if MatchesAt(data, p, from) then Some(from)
    else FindFrom(data, p, from + 1)
  }

  /** End of the greedy `[...]*` run that starts at `j`. */
  function RunEnd(data: string, p: Pattern, j: nat): (e: nat)
    requires j <= |data|
    ensures j <= e <= |data|
    ensures forall k :: j <= k < e ==> InRun(p, data[k])
    ensures e < |data| ==> !InRun(p, data[e])
    decreases |data| - j
  {
    if j < |data| && InRun(p, data[j]) then RunEnd(data, p, j + 1) else j
  }

  /** `g` is what group 1 captures when it starts at `s`: the literal
      followed by the longest run of class characters. */
  predicate IsCapture(data: string, p: Pattern, s: nat, g: string)
  {
    && s + |g| <= |data|
    && data[s..s + |g|] == g
    && StartsWith(g, Literal(p))
    && (forall k :: |Literal(p)| <= k < |g| ==> InRun(p, g[k]))
    && (s + |g| == |data| || !InRun(p, data[s + |g|]))
  }

  /** The greedy run after the literal occurring at `s` is its capture. */
  lemma RunIsCapture(data: string, p: Pattern, s: nat)
    requires OccursAt(data, Literal(p), s)
    ensures IsCapture(data, p, s, data[s..RunEnd(data, p, s + |Literal(p)|)])
  {
    var n := |Literal(p)|;
    var e := RunEnd(data, p, s + n);
    var g := data[s..e];
    SliceStartsWith(data, Literal(p), s, e);
    SliceRun(data, p, s + n, s, e);
    assert s + |g| == e;
    assert data[s..s + |g|] == g;
    assert e == |data| || !InRun(p, data[e]);
  }

  lemma SliceStartsWith(data: string, lit: string, s: nat, e: nat)
    requires OccursAt(data, lit, s) && s + |lit| <= e <= |data|
    ensures StartsWith(data[s..e], lit)
  {
    assert data[s..e][..|lit|] == data[s..s + |lit|];
  }

  lemma SliceRun(data: string, p: Pattern, j: nat, s: nat, e: nat)
    requires s <= j <= e <= |data|
    requires forall k :: j <= k < e ==> InRun(p, data[k])
    ensures forall k :: j - s <= k < e - s ==> InRun(p, data[s..e][k])
  {
    forall k | j - s <= k < e - s ensures InRun(p, data[s..e][k]) {
      assert data[s..e][k] == data[s + k];
    }
  }

  /** `r.search(data)` followed by `match.group(1)`: `None` when the pattern
      occurs nowhere, otherwise the capture of the leftmost match. */
  function Search(data: string, p: Pattern): (r: Option<string>)
    ensures r.None? <==> forall q :: !MatchesAt(data, p, q)
    ensures r.Some? ==> FindFrom(data, p, 0).Some? && IsCapture(data, p, FindFrom(data, p, 0).value + Lead(p), r.value)
  {
    match FindFrom(data, p, 0)
    case None => None
    case Some(m) =>
      var s := m + Lead(p);
      RunIsCapture(data, p, s);
      Some(data[s..RunEnd(data, p, s + |Literal(p)|)])
  }

  /** A match has one capture: the greedy run leaves no choice. */
  lemma CaptureUnique(data: string, p: Pattern, s: nat, g1: string, g2: string)
    requires IsCapture(data, p, s, g1) && IsCapture(data, p, s, g2)
    ensures g1 == g2
  {
    assert forall k :: 0 <= k < |g1| ==> g1[k] == data[s + k];
    assert forall k :: 0 <= k < |g2| ==> g2[k] == data[s + k];
    assert |g1| == |g2|;
  }

  /** A quoted capture never contains a quote: it ends before the closing one. */
  lemma QuotedCaptureHasNoQuote(data: string)
    requires Search(data, QuotedName).Some?
    ensures forall k :: 0 <= k < |Search(data, QuotedName).value| ==> !IsQuote(Search(data, QuotedName).value[k])
  {
    var g := Search(data, QuotedName).value;
    assert g[..4] == "gtk-";
    forall k | 0 <= k < |g| ensures !IsQuote(g[k]) {
      if k < 4 {
        assert g[k] == "gtk-"[k];
      }
    }
  }

  // ---------------------------------------------------------------------
  // The white list

  /** `x.replace("_", "-")`. */
  function Hyphenated(x: string): (r: string)
    ensures |r| == |x|
    ensures forall k :: 0 <= k < |r| ==> r[k] != '_'
    ensures forall k :: 0 <= k < |x| && x[k] != '_' ==> r[k] == x[k]
    ensures forall k :: 0 <= k < |x| && x[k] == '_' ==> r[k] == '-'
  {
    seq(|x|, k requires 0 <= k < |x| => if x[k] == '_' then '-' else x[k])
  }

  /** The setting keys that start like stock icons, with `_` turned into `-`. */
  function DerivedWhite(props: seq<string>): (white: seq<string>)
    ensures |white| <= |props|
    decreases |props|
  {
    if props == [] then []
    else if StartsWith(props[0], "gtk_") then [Hyphenated(props[0])] + DerivedWhite(props[1..])
    else DerivedWhite(props[1..])
  }

  /** Names the source still uses that older GTK versions lack, and a few more. */
  const StaticWhite: seq<string> :=
    ["gtk-dialogs-use-header", "gtk-primary-button-warps-slider",
     "gtk-tooltip", "gtk-", "gtk-update-icon-cache-"]

  /** The `white` fixture, given the property names of the default settings object. */
  function White(props: seq<string>): seq<string>
  {
    DerivedWhite(props) + StaticWhite
  }

  lemma {:induction false} DerivedWhiteMembers(props: seq<string>, g: string)
    ensures g in DerivedWhite(props) <==> exists x :: x in props && StartsWith(x, "gtk_") && Hyphenated(x) == g
    decreases |props|
  {
    if props != [] {
      DerivedWhiteMembers(props[1..], g);
      assert props == [props[0]] + props[1..];
    }
  }

  /** A name is white exactly when it is one of the fixed names or a `gtk_`
      setting key with its underscores turned into hyphens. */
  lemma WhiteMembers(props: seq<string>, g: string)
    ensures g in White(props) <==>
      g in StaticWhite || exists x :: x in props && StartsWith(x, "gtk_") && Hyphenated(x) == g
  {
    DerivedWhiteMembers(props, g);
  }

  /** Every derived name starts with `gtk-` and holds no underscore. */
  lemma {:induction false} DerivedWhiteShape(props: seq<string>)
    ensures forall w :: w in DerivedWhite(props) ==> StartsWith(w, "gtk-") && '_' !in w
    decreases |props|
  {
    if props != [] {
      DerivedWhiteShape(props[1..]);
      if StartsWith(props[0], "gtk_") {
        var x := props[0];
        var h := Hyphenated(x);
        assert x[..4] == "gtk_";
        assert h[..4] == "gtk-" by {
          assert h[0] == x[0] == "gtk_"[0];
          assert h[1] == x[1] == "gtk_"[1];
          assert h[2] == x[2] == "gtk_"[2];
          assert x[3] == "gtk_"[3];
        }
      }
    }
  }

  /** Every white name starts with `gtk-`, whatever GTK provides. */
  lemma WhiteShape(props: seq<string>)
    ensures forall w :: w in White(props) ==> StartsWith(w, "gtk-")
  {
    DerivedWhiteShape(props);
    assert forall w :: w in StaticWhite ==> StartsWith(w, "gtk-");
  }

  /** A `Gtk.STOCK_` constant is never white, whatever GTK provides. */
  lemma StockConstantNeverWhite(data: string, props: seq<string>)
    requires Search(data, StockConstant).Some?
    ensures Search(data, StockConstant).value !in White(props)
  {
    var g := Search(data, StockConstant).value;
    assert g[..10] == "Gtk.STOCK_";
    assert g[0] == 'G';
    WhiteShape(props);
    assert forall w :: w in White(props) ==> w[..4] == "gtk-" && w[0] == w[..4][0];
  }

  // ---------------------------------------------------------------------
  // The check

  datatype Verdict = Pass | Fail(group: string)

  /** Pattern `p` finds a name that is not white. */
  predicate Flags(data: string, p: Pattern, white: seq<string>)
  {
    Search(data, p).Some? && Search(data, p).value !in white
  }

  /** Pattern `k` is the first to find a name that is not white. */
  predicate FirstFlagged(data: string, white: seq<string>, k: nat)
    requires k < |Patterns|
  {
    Flags(data, Patterns[k], white) && forall j :: 0 <= j < k ==> !Flags(data, Patterns[j], white)
  }

  /** The files the test leaves alone. */
  predicate Exempt(path: string)
  {
    EndsWith(path, "icons.py") || EndsWith(path, "test_source.py")
  }

  /** `test_icons_used` for one file: it fails with the first capture, in
      pattern order, that is not white, and passes when there is none. */
  method TestIconsUsed(path: string, data: string, white: seq<string>) returns (v: Verdict)
    ensures Exempt(path) ==> v == Pass
    ensures v.Fail? <==> !Exempt(path) && exists k :: 0 <= k < |Patterns| && Flags(data, Patterns[k], white)
    ensures v.Fail? ==> exists k :: 0 <= k < |Patterns| && FirstFlagged(data, white, k) && Search(data, Patterns[k]) == Some(v.group)
  {
    if Exempt(path) {
      return Pass;
    }
    var n := 0;
    while n < |Patterns|
      invariant n <= |Patterns|
      invariant forall j :: 0 <= j < n ==> !Flags(data, Patterns[j], white)
    {
      var found := Search(data, Patterns[n]);
      if found.Some? {
        var group := found.value;
        if group !in white {
          assert FirstFlagged(data, white, n) && Search(data, Patterns[n]) == Some(group);
          return Fail(group);
        }
      }
      n := n + 1;
    }
    v := Pass;
  }

  /** Only the first quoted name is looked at: whatever follows the closing
      quote, the capture is the first name. */
  lemma FirstQuotedNameDecides(name: string, rest: string)
    requires StartsWith(name, "gtk-")
    requires forall k :: 4 <= k < |name| ==> InRun(QuotedName, name[k])
    ensures Search("'" + name + "'" + rest, QuotedName) == Some(name)
  {
    var data := "'" + name + "'" + rest;
    var e := 1 + |name|;
    assert forall k :: 0 <= k < |name| ==> data[1 + k] == name[k];
    assert data[1..5] == name[..4];
    assert MatchesAt(data, QuotedName, 0);
    assert data[e] == '\'';
    assert RunEnd(data, QuotedName, 5) == e;
    assert data[1..e] == name;
  }
}
