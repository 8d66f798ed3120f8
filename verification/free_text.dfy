/** The natural-language fallback of the Telegram bot (`handle_message`): the text is
    lower-cased and stripped, then matched against four anchored patterns of the
    form `^<keyword>:?\s*(.+)$`, and the first one that matches supplies the title.

    Each pattern is modelled as the regular-expression engine runs it: the optional
    colon is tried present before absent, the whitespace run is greedy and gives
    characters back one at a time, `.` matches anything but a newline and `$` matches
    at the end of the text or just before a newline that ends it.
 */
module FreeText {
  import opened Base
  import Text

  /** The keywords of the four add patterns, in the order they are tried. */
  const Keywords: seq<string> := ["add todo", "todo", "add", "new todo"]

  predicate NoNewline(s: string) {
    forall i :: 0 <= i < |s| ==> s[i] != '\n'
  }

  // ---------------------------------------------------------------------------
  // The pieces of `^<keyword>:?\s*(.+)$`

  /** The end of the line that starts at `p`: the first newline at or after `p`, or the end. */
  function LineEnd(u: string, p: nat): (q: nat)
    requires p <= |u|
    ensures p <= q <= |u|
    ensures NoNewline(u[p..q])
    ensures q < |u| ==> u[q] == '\n'
    decreases |u| - p
  {
    if p == |u| || u[p] == '\n' then p
    else
      var q := LineEnd(u, p + 1);
      assert u[p..q] == [u[p]] + u[p + 1..q];
      q
  }

  /** `(.+)$` tried at position `p`. The greedy `.+` runs to the end of the line, and
      giving characters back cannot help `$`, so this is the only candidate. */
  function DotsToEnd(u: string, p: nat): (g: Option<string>)
    requires p <= |u|
    ensures g.Some? ==> |g.value| > 0 && NoNewline(g.value)
    ensures g.Some? ==> u[p..] == g.value || u[p..] == g.value + "\n"
  {
    var q := LineEnd(u, p);
    if p < q && (q == |u| || q == |u| - 1) then
      assert q == |u| - 1 ==> u[p..] == u[p..q] + "\n";
      Some(u[p..q])
    else None
  }

  /** `(.+)$` matches at `p` whenever the rest of the text is one non-empty line,
      possibly followed by a final newline. */
  lemma {:induction false} DotsToEndComplete(u: string, p: nat, g: string)
    requires p <= |u|
    requires |g| > 0 && NoNewline(g)
    requires u[p..] == g || u[p..] == g + "\n"
    ensures DotsToEnd(u, p) == Some(g)
  {
    var q := LineEnd(u, p);
    if u[p..] == g + "\n" {
      assert u[p + |g|] == '\n';
    }
    assert u[p..q] == g;
  }

  /** `\s*(.+)$` tried at position `p`. The greedy `\s*` takes a whitespace character
      and tries the rest after it; only when that fails does it give the character
      back and try `(.+)$` where it stands. Unwound, this is the engine's order: the
      whole whitespace run first, then one character shorter, and so on. */
  function SpacesThenRest(u: string, p: nat): Option<string>
    requires p <= |u|
    decreases |u| - p
  {
    if p < |u| && Text.IsSpace(u[p]) then
      match SpacesThenRest(u, p + 1)
      case Some(g) => Some(g)
      case None => DotsToEnd(u, p)
    else DotsToEnd(u, p)
  }

  /** What `\s*(.+)$` captures is `(.+)$` read after some whitespace. */
  lemma {:induction false} SpacesThenRestSound(u: string, p: nat)
    requires p <= |u|
    ensures SpacesThenRest(u, p).Some? ==>
      exists k :: p <= k <= |u| && Text.AllSpace(u[p..k]) && DotsToEnd(u, k) == SpacesThenRest(u, p)
    decreases |u| - p
  {
    if p < |u| && Text.IsSpace(u[p]) && SpacesThenRest(u, p + 1).Some? {
      SpacesThenRestSound(u, p + 1);
      var k :| p + 1 <= k <= |u| && Text.AllSpace(u[p + 1..k]) && DotsToEnd(u, k) == SpacesThenRest(u, p + 1);
      SpaceThenSpaces(u, p, k);
      assert SpacesThenRest(u, p) == SpacesThenRest(u, p + 1);
    } else {
      assert SpacesThenRest(u, p) == DotsToEnd(u, p);
      assert Text.AllSpace(u[p..p]);
    }
  }

  lemma {:induction false} SpaceThenSpaces(u: string, p: nat, k: nat)
    requires p < k <= |u|
    requires Text.IsSpace(u[p]) && Text.AllSpace(u[p + 1..k])
    ensures Text.AllSpace(u[p..k])
  {
    assert u[p..k] == [u[p]] + u[p + 1..k];
  }

  /** Whitespace followed by one line is always matched by `\s*(.+)$`. */
  lemma {:induction false} SpacesThenRestComplete(u: string, p: nat, k: nat)
    requires p <= k <= |u|
    requires Text.AllSpace(u[p..k])
    requires DotsToEnd(u, k).Some?
    ensures SpacesThenRest(u, p).Some?
    decreases k - p
  {
    if p < k {
      assert u[p] == u[p..k][0];
      assert u[p + 1..k] == u[p..k][1..];
      SpacesThenRestComplete(u, p + 1, k);
    }
  }

  /** The ways the text can be read as `<keyword>`, an optional colon, whitespace and
      the captured group, with the final newline `$` allows. */
  predicate Decomposes(kw: string, t: string, colon: string, spaces: string, g: string) {
    && (colon == "" || colon == ":")
    && Text.AllSpace(spaces)
    && |g| > 0 && NoNewline(g)
    && (t == kw + colon + spaces + g || t == kw + colon + spaces + g + "\n")
  }

  /** `re.match(r"^<kw>:?\s*(.+)$", t)`: the group it captures, if any. */
  function MatchAdd(kw: string, t: string): Option<string> {
    if kw <= t then
      var a := |kw|;
      var withColon := if a < |t| && t[a] == ':' then SpacesThenRest(t, a + 1) else None;
      if withColon.Some? then withColon else SpacesThenRest(t, a)
    else None
  }

  /** Whatever the pattern captures is a reading of the text as the pattern. */
  lemma {:induction false} MatchAddSound(kw: string, t: string)
    ensures MatchAdd(kw, t).Some? ==> exists colon, spaces :: Decomposes(kw, t, colon, spaces, MatchAdd(kw, t).value)
  {
    if kw <= t {
      var a := |kw|;
      if a < |t| && t[a] == ':' && SpacesThenRest(t, a + 1).Some? {
        ReadAfter(kw, t, ":", a + 1);
        var sp :| Decomposes(kw, t, ":", sp, SpacesThenRest(t, a + 1).value);
        assert MatchAdd(kw, t) == SpacesThenRest(t, a + 1);
      } else if SpacesThenRest(t, a).Some? {
        ReadAfter(kw, t, "", a);
        var sp :| Decomposes(kw, t, "", sp, SpacesThenRest(t, a).value);
        assert MatchAdd(kw, t) == SpacesThenRest(t, a);
      }
    }
  }

  /** What `\s*(.+)$` captures after the keyword and colon is a reading of the whole pattern. */
  lemma {:induction false} ReadAfter(kw: string, t: string, colon: string, p: nat)
    requires kw <= t
    requires colon == "" || (colon == ":" && |kw| < |t| && t[|kw|] == ':')
    requires p == |kw| + |colon|
    ensures SpacesThenRest(t, p).Some? ==>
      exists spaces :: Decomposes(kw, t, colon, spaces, SpacesThenRest(t, p).value)
  {
    var g := SpacesThenRest(t, p);
    SpacesThenRestSound(t, p);
    assert kw + colon <= t by {
      assert t[..|kw|] == kw;
    }
    if g.Some? {
      var k :| p <= k <= |t| && Text.AllSpace(t[p..k]) && DotsToEnd(t, k) == g;
      Pieces(t, kw + colon, k);
      var sp := t[p..k];
      if t[k..] == g.value {
        assert t == kw + colon + sp + g.value;
      } else {
        assert t[k..] == g.value + "\n";
        AppendNewline(kw + colon + sp, g.value);
      }
      assert Decomposes(kw, t, colon, sp, g.value);
    }
  }

  lemma {:induction false} AppendNewline(a: string, g: string)
    ensures a + (g + "\n") == a + g + "\n"
  {
  }

  lemma {:induction false} Pieces(t: string, pre: string, k: nat)
    requires pre <= t && |pre| <= k <= |t|
    ensures t == pre + t[|pre|..k] + t[k..]
  {
    assert t[..|pre|] == pre;
  }

  /** Whenever the text can be read as the pattern, the pattern matches. */
  lemma {:induction false} MatchAddComplete(kw: string, t: string, colon: string, spaces: string, g: string)
    requires Decomposes(kw, t, colon, spaces, g)
    ensures MatchAdd(kw, t).Some?
  {
    var a := |kw|;
    var p := a + |colon|;
    var k := p + |spaces|;
    Reading(t, kw + colon, spaces, g);
    assert kw <= t;
    DotsToEndComplete(t, k, g);
    SpacesThenRestComplete(t, p, k);
    if colon == ":" {
      assert t[a] == (kw + colon)[a];
      ColonSome(kw, t);
    } else {
      assert colon == "" && p == a;
      PlainSome(kw, t);
    }
  }

  lemma {:induction false} ColonSome(kw: string, t: string)
    requires kw <= t && |kw| < |t| && t[|kw|] == ':'
    requires SpacesThenRest(t, |kw| + 1).Some?
    ensures MatchAdd(kw, t).Some?
  {
  }

  lemma {:induction false} PlainSome(kw: string, t: string)
    requires kw <= t
    requires SpacesThenRest(t, |kw|).Some?
    ensures MatchAdd(kw, t).Some?
  {
  }

  // ---------------------------------------------------------------------------
  // The search in handle_message

  /** The text the patterns are matched against: `text.lower().strip()`. */
  function Normalize(text: string): string {
    Text.Strip(Text.Lower(text))
  }

  /** What one pattern contributes: its group, stripped, unless there is no match or
      the group strips to nothing. */
  function Candidate(m: Option<string>): (r: Option<string>)
    ensures r.Some? <==> m.Some? && Text.Strip(m.value) != ""
    ensures r.Some? ==> r.value == Text.Strip(m.value)
  {
    match m
    case Some(g) => if Text.Strip(g) != "" then Some(Text.Strip(g)) else None
    case None => None
  }

  /** The candidates of the four patterns in `t`, in the order they are tried. */
  function Candidates(t: string): (r: seq<Option<string>>)
    ensures |r| == |Keywords|
    ensures forall j :: 0 <= j < |r| ==> r[j] == Candidate(MatchAdd(Keywords[j], t))
  {
    seq(|Keywords|, j requires 0 <= j < |Keywords| => Candidate(MatchAdd(Keywords[j], t)))
  }

  /** The loop over the patterns from the `i`-th on: the first candidate found. */
  function FirstSome(cs: seq<Option<string>>, i: nat): (r: Option<string>)
    requires i <= |cs|
    ensures r.Some? ==> exists j :: i <= j < |cs| && cs[j] == r && forall m :: i <= m < j ==> cs[m].None?
    ensures r.None? <==> forall j :: i <= j < |cs| ==> cs[j].None?
    decreases |cs| - i
  {
    if i == |cs| then None
    else if cs[i].Some? then cs[i]
    else FirstSome(cs, i + 1)
  }

  /** The first candidate is the one found: a candidate preceded only by misses. */
  lemma {:induction false} FirstSomeAt(cs: seq<Option<string>>, j: nat)
    requires j < |cs| && cs[j].Some?
    requires forall m :: 0 <= m < j ==> cs[m].None?
    ensures FirstSome(cs, 0) == cs[j]
  {
    var r := FirstSome(cs, 0);
    var k :| 0 <= k < |cs| && cs[k] == r && forall m :: 0 <= m < k ==> cs[m].None?;
  }

  /** The title `handle_message` would create from `text`, if any. */
  function Title(text: string): (r: Option<string>)
    ensures r.Some? ==> r.value != "" && Text.IsStripped(r.value)
    ensures r.Some? ==> forall i :: 0 <= i < |r.value| ==> !Text.IsUpper(r.value[i])
    ensures r.Some? ==> Text.IsInfix(r.value, Normalize(text))
  {
    TitleIsLowerInfix(text);
    FirstSome(Candidates(Normalize(text)), 0)
  }

  lemma {:induction false} TitleIsLowerInfix(text: string)
    ensures var r := FirstSome(Candidates(Normalize(text)), 0);
      r.Some? ==>
        && r.value != "" && Text.IsStripped(r.value)
        && Text.IsInfix(r.value, Normalize(text))
        && forall i :: 0 <= i < |r.value| ==> !Text.IsUpper(r.value[i])
  {
    var t := Normalize(text);
    var cs := Candidates(t);
    var r := FirstSome(cs, 0);
    if r.Some? {
      var j :| 0 <= j < |cs| && cs[j] == r;
      StrippedMatch(Keywords[j], t);
      NormalizeIsLower(text);
      NoUpperInInfix(r.value, t);
    }
  }

  /** A group matched in stripped text ends where the text ends, so it never strips
      to nothing, and it lies inside the text. */
  lemma {:induction false} StrippedMatch(kw: string, t: string)
    requires Text.IsStripped(t)
    requires MatchAdd(kw, t).Some?
    ensures Text.Strip(MatchAdd(kw, t).value) != ""
    ensures Text.IsInfix(Text.Strip(MatchAdd(kw, t).value), t)
  {
    var g := MatchAdd(kw, t).value;
    MatchAddSound(kw, t);
    var colon, spaces :| Decomposes(kw, t, colon, spaces, g);
    StrippedGroup(t, kw + colon + spaces, g);
  }

  lemma {:induction false} StrippedGroup(t: string, pre: string, g: string)
    requires Text.IsStripped(t)
    requires |g| > 0 && (t == pre + g || t == pre + g + "\n")
    ensures Text.Strip(g) != "" && Text.IsInfix(Text.Strip(g), t)
  {
    if t == pre + g + "\n" {
      assert false;
    }
    assert t[|pre|..] == g;
    assert !Text.IsSpace(g[|g| - 1]);
    var r := Text.Strip(g);
    var s0 := Text.StripStart(g);
    if s0 + |r| < |g| {
      assert false;
    }
    if r == "" {
      assert false;
    }
    assert r == g[s0..];
    DropTwice(t, |pre|, s0);
  }

  lemma {:induction false} DropTwice(t: string, a: nat, b: nat)
    requires a + b <= |t|
    ensures t[a..][b..] == t[a + b..]
  {
  }

  /** Normalized text has no upper-case letter. */
  lemma {:induction false} NormalizeIsLower(text: string)
    ensures forall j :: 0 <= j < |Normalize(text)| ==> !Text.IsUpper(Normalize(text)[j])
  {
    var l := Text.Lower(text);
    var r := Text.Strip(l);
    assert r == Normalize(text);
    Text.SliceOfSuffix(l, Text.StripStart(l), |r|);
    assert r <= l[Text.StripStart(l)..];
    NoUpperInInfix(r, l);
  }

  lemma {:induction false} NoUpperInInfix(sub: string, s: string)
    requires Text.IsInfix(sub, s)
    requires forall j :: 0 <= j < |s| ==> !Text.IsUpper(s[j])
    ensures forall j :: 0 <= j < |sub| ==> !Text.IsUpper(sub[j])
  {
    var i :| 0 <= i <= |s| && sub <= s[i..];
    forall j | 0 <= j < |sub| ensures !Text.IsUpper(sub[j]) {
      assert sub[j] == s[i..][j] == s[i + j];
    }
  }

  /** The first pattern that matches decides the title, whatever the later ones
      would have given: in stripped text a match always has a non-blank group. */
  lemma {:induction false} FirstMatchWins(text: string, i: nat)
    requires i < |Keywords|
    requires MatchAdd(Keywords[i], Normalize(text)).Some?
    requires forall j :: 0 <= j < i ==> MatchAdd(Keywords[j], Normalize(text)).None?
    ensures Title(text) == Some(Text.Strip(MatchAdd(Keywords[i], Normalize(text)).value))
  {
    var t := Normalize(text);
    var cs := Candidates(t);
    StrippedMatch(Keywords[i], t);
    forall m | 0 <= m < i ensures cs[m].None? {
      assert MatchAdd(Keywords[m], t).None?;
    }
    FirstSomeAt(cs, i);
  }

  /** No title exactly when none of the four patterns matches. */
  lemma {:induction false} NoTitleIffNoMatch(text: string)
    ensures Title(text).None? <==> forall j :: 0 <= j < |Keywords| ==> MatchAdd(Keywords[j], Normalize(text)).None?
  {
    NoCandidateIffNoMatch(Normalize(text));
  }

  lemma {:induction false} NoCandidateIffNoMatch(t: string)
    requires Text.IsStripped(t)
    ensures FirstSome(Candidates(t), 0).None? <==> forall j :: 0 <= j < |Keywords| ==> MatchAdd(Keywords[j], t).None?
  {
    var cs := Candidates(t);
    forall j | 0 <= j < |Keywords| ensures cs[j].None? <==> MatchAdd(Keywords[j], t).None? {
      CandidateIffMatch(t, j);
    }
  }

  /** In stripped text a pattern contributes a candidate exactly when it matches. */
  lemma {:induction false} CandidateIffMatch(t: string, j: nat)
    requires Text.IsStripped(t) && j < |Keywords|
    ensures Candidates(t)[j].None? <==> MatchAdd(Keywords[j], t).None?
  {
    if MatchAdd(Keywords[j], t).Some? {
      StrippedMatch(Keywords[j], t);
    }
  }

  // ---------------------------------------------------------------------------
  // Which group a match captures

  /** `\s*(.+)$` at `p` captures the rest after the whole whitespace run when that
      rest is one line. */
  lemma {:induction false} SpacesThenRestExact(u: string, p: nat, k: nat, g: string)
    requires p <= k <= |u|
    requires Text.AllSpace(u[p..k])
    requires k < |u| ==> !Text.IsSpace(u[k])
    requires |g| > 0 && NoNewline(g)
    requires u[k..] == g || u[k..] == g + "\n"
    ensures SpacesThenRest(u, p) == Some(g)
    decreases k - p
  {
    if p < k {
      assert u[p] == u[p..k][0];
      assert u[p + 1..k] == u[p..k][1..];
      SpacesThenRestExact(u, p + 1, k, g);
    } else {
      DotsToEndComplete(u, k, g);
    }
  }

  lemma {:induction false} Reading(t: string, pre: string, spaces: string, g: string)
    requires t == pre + spaces + g || t == pre + spaces + g + "\n"
    ensures |pre| + |spaces| <= |t|
    ensures t[..|pre|] == pre && t[|pre|..|pre| + |spaces|] == spaces
    ensures t[|pre| + |spaces|..] == g || t[|pre| + |spaces|..] == g + "\n"
  {
    if t != pre + spaces + g {
      AppendNewline(pre + spaces, g);
    }
  }

  lemma {:induction false} ColonReading(kw: string, t: string, g: string)
    requires kw <= t && |kw| < |t| && t[|kw|] == ':'
    requires SpacesThenRest(t, |kw| + 1) == Some(g)
    ensures MatchAdd(kw, t) == Some(g)
  {
  }

  lemma {:induction false} PlainReading(kw: string, t: string, g: string)
    requires kw <= t && |kw| < |t|
    requires t[|kw|] != ':' || SpacesThenRest(t, |kw| + 1).None?
    requires SpacesThenRest(t, |kw|) == Some(g)
    ensures MatchAdd(kw, t) == Some(g)
  {
  }

  /** The whitespace run is greedy: when the group does not start with whitespace
      and the colon reading is the one the engine tries first, the match captures
      exactly that group. A colon with nothing after it is left to the group. */
  lemma {:induction false} MatchAddExact(kw: string, t: string, colon: string, spaces: string, g: string)
    requires Decomposes(kw, t, colon, spaces, g)
    requires !Text.IsSpace(g[0])
    requires colon == "" ==> t[|kw|] != ':' || t == kw + ":"
    ensures MatchAdd(kw, t) == Some(g)
  {
    var a := |kw|;
    var p := a + |colon|;
    var k := p + |spaces|;
    Reading(t, kw + colon, spaces, g);
    assert kw <= t;
    assert t[k] == g[0];
    SpacesThenRestExact(t, p, k, g);
    if colon == ":" {
      assert a < |t| && t[a] == ':' && p == a + 1;
      ColonReading(kw, t, g);
    } else {
      PlainReading(kw, t, g);
    }
  }

  /** `text.lower().strip()` leaves text that is already lower-case and stripped alone. */
  lemma {:induction false} NormalizeClean(t: string)
    requires Text.IsStripped(t)
    requires forall i :: 0 <= i < |t| ==> !Text.IsUpper(t[i])
    ensures Normalize(t) == t
  {
    assert Text.Lower(t) == t;
    assert t == [] + t + [];
    Text.StripOf([], t, []);
  }
  // ---------------------------------------------------------------------------
  // Examples

  /** A keyword, a colon and a space before the title; "add todo" does not match. */
  lemma {:induction false} ColonMatch(t: string)
    requires t == "todo: buy milk"
    ensures MatchAdd(Keywords[0], t).None?
    ensures MatchAdd(Keywords[1], t) == Some("buy milk")
  {
    NotPrefix(Keywords[0], t);
    var g: string := "buy milk";
    assert t == Keywords[1] + ":" + " " + g;
    MatchAddExact(Keywords[1], t, ":", " ", g);
  }

  /** The colon is optional. */
  lemma {:induction false} NoColonMatch(t: string)
    requires t == "add todo milk"
    ensures MatchAdd(Keywords[0], t) == Some("milk")
  {
    var g: string := "milk";
    assert t == Keywords[0] + "" + " " + g;
    MatchAddExact(Keywords[0], t, "", " ", g);
  }

  /** The keyword needs no word boundary after it. */
  lemma {:induction false} NoBoundaryMatch(t: string)
    requires t == "todolist"
    ensures MatchAdd(Keywords[0], t).None?
    ensures MatchAdd(Keywords[1], t) == Some("list")
  {
    NotPrefix(Keywords[0], t);
    var g: string := "list";
    assert t == Keywords[1] + "" + "" + g;
    MatchAddExact(Keywords[1], t, "", "", g);
  }

  /** A colon with nothing after it is captured as the group itself. */
  lemma {:induction false} BareColonMatch(t: string)
    requires t == "todo:"
    ensures MatchAdd(Keywords[0], t).None?
    ensures MatchAdd(Keywords[1], t) == Some(":")
  {
    NotPrefix(Keywords[0], t);
    var g: string := ":";
    assert t == Keywords[1] + "" + "" + g;
    MatchAddExact(Keywords[1], t, "", "", g);
  }

  /** A message that starts with no keyword matches no pattern. */
  lemma {:induction false} NoKeywordMatch(t: string)
    requires t == "hello"
    ensures forall j :: 0 <= j < |Keywords| ==> MatchAdd(Keywords[j], t).None?
  {
    forall j | 0 <= j < |Keywords| ensures MatchAdd(Keywords[j], t).None? {
      NotPrefix(Keywords[j], t);
    }
  }

  lemma {:induction false} NotPrefix(kw: string, t: string)
    requires |kw| > 0 && |t| > 0 && kw[0] != t[0]
    ensures MatchAdd(kw, t).None?
  {
  }
}
