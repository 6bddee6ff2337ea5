/** `parse_field(text, field_name)`: `re.search` of the pattern
    `field_name + "[:\-]?\s*([^\n]+)"` under `re.IGNORECASE`, then
    `match.group(1).strip()`, or "Not Found" when nothing matches.

    The field name is spliced into the pattern unescaped, so a `|` in it splits
    the pattern into top-level alternatives: every alternative but the last is a
    bare literal, and only the last one carries the separator, the whitespace
    and the capture group. The matcher below is written for exactly this shape
    and follows the order in which a backtracking engine tries the ways of
    matching it; the predicates IsHit and FirstHit say independently which
    match `re.search` reports. */
module FieldMatch {
  import opened Wrappers
  import opened PyStr

  /** One top-level alternative of the spliced pattern. */
  datatype Branch = Bare(lit: string) | Labelled(lit: string)

  type Pattern = seq<Branch>

  /** How `[:\-]?\s*([^\n]+)` matched: the whitespace run begins at `q` (just
      after the separator when one was taken) and group 1 is `s[k..e]`. */
  datatype Tail = Tail(q: nat, k: nat, e: nat)

  /** A match of the whole pattern: its start, the alternative that matched,
      and how the tail matched, or None when the alternative was a bare one
      and group 1 did not take part. */
  datatype Hit = Hit(start: nat, branch: nat, tail: Option<Tail>)

  /** The characters of the class `[:\-]`. */
  predicate IsSep(c: char) {
    c == ':' || c == '-'
  }

  /// What a match is, independently of how it is found

  /** `\s*([^\n]+)` matches from `q` with the whitespace run `s[q..t.k]` and
      group 1 `s[t.k..t.e]`. */
  ghost predicate IsTailFrom(s: string, q: nat, t: Tail) {
    t.q == q && q <= t.k < t.e <= |s|
    && (forall j :: q <= j < t.k ==> IsSpace(s[j]))
    && (forall j :: t.k <= j < t.e ==> s[j] != '\n')
  }

  /** `[:\-]?\s*([^\n]+)` matches from `p` as `t` says. */
  ghost predicate IsTail(s: string, p: nat, t: Tail) {
    (t.q == p || (t.q == p + 1 && p < |s| && IsSep(s[p]))) && IsTailFrom(s, t.q, t)
  }

  /** The backtracking engine tries `t1` before `t2`: the greedy `?` first takes
      the separator, the greedy `*` and `+` first take as much as they can. */
  predicate TailBefore(t1: Tail, t2: Tail) {
    t1.q > t2.q || (t1.q == t2.q && (t1.k > t2.k || (t1.k == t2.k && t1.e > t2.e)))
  }

  /** `h` is a way for the pattern to match `s`. */
  ghost predicate IsHit(s: string, pat: Pattern, h: Hit) {
    h.branch < |pat| && LiteralAt(s, pat[h.branch].lit, h.start)
    && match pat[h.branch]
       case Bare(_) => h.tail == None
       case Labelled(l) => h.tail.Some? && IsTail(s, h.start + |l|, h.tail.value)
  }

  /** `re.search` tries `h1` before `h2`: earlier starts first, then the
      alternatives from left to right, then the tail's own order. */
  predicate HitBefore(h1: Hit, h2: Hit) {
    h1.start < h2.start
    || (h1.start == h2.start
        && (h1.branch < h2.branch
            || (h1.branch == h2.branch && h1.tail.Some? && h2.tail.Some?
                && TailBefore(h1.tail.value, h2.tail.value))))
  }

  /** `h` is the match `re.search` reports: a match tried before every other. */
  ghost predicate FirstHit(s: string, pat: Pattern, h: Hit) {
    IsHit(s, pat, h) && forall h' :: IsHit(s, pat, h') && h' != h ==> HitBefore(h, h')
  }

  /// The matcher

  /** The end of the longest whitespace run from `q`: where greedy `\s*` stops. */
  function SpaceRunEnd(s: string, q: nat): (w: nat)
    requires q <= |s|
    ensures q <= w <= |s|
    ensures forall j :: q <= j < w ==> IsSpace(s[j])
    ensures w < |s| ==> !IsSpace(s[w])
    decreases |s| - q
  {
    if q < |s| && IsSpace(s[q]) then SpaceRunEnd(s, q + 1) else q
  }

  /** The next newline at or after `k`, or the end of `s`: where greedy
      `[^\n]+` stops. */
  function LineEnd(s: string, k: nat): (e: nat)
    requires k <= |s|
    ensures k <= e <= |s|
    ensures forall j :: k <= j < e ==> s[j] != '\n'
    ensures e < |s| ==> s[e] == '\n'
    decreases |s| - k
  {
    if k < |s| && s[k] != '\n' then LineEnd(s, k + 1) else k
  }

  /** Backtracking `\s*` from its longest run `s[q..w]` one character at a
      time, until `[^\n]` can match next: the longest run that leaves a
      non-newline character after it, if there is one. */
  function GiveBack(s: string, q: nat, w: nat): (k: Option<nat>)
    requires q <= w <= |s|
    ensures k.Some? ==> q <= k.value <= w && k.value < |s| && s[k.value] != '\n'
    ensures k.Some? ==> forall j :: k.value < j <= w && j < |s| ==> s[j] == '\n'
    ensures k.None? ==> forall j :: q <= j <= w && j < |s| ==> s[j] == '\n'
    decreases w - q
  {
    if w < |s| && s[w] != '\n' then Some(w)
    else if w == q then None
    else GiveBack(s, q, w - 1)
  }

  /** Every match of `\s*([^\n]+)` from `q` starts its group within the longest
      whitespace run, on a non-newline character, and ends it no later than
      the next newline. */
  lemma TailBounds(s: string, q: nat)
    requires q <= |s|
    ensures forall t' :: IsTailFrom(s, q, t') ==>
      t'.k <= SpaceRunEnd(s, q) && t'.k < |s| && s[t'.k] != '\n' && t'.e <= LineEnd(s, t'.k)
  {
    forall t' | IsTailFrom(s, q, t')
      ensures t'.k <= SpaceRunEnd(s, q) && t'.k < |s| && s[t'.k] != '\n' && t'.e <= LineEnd(s, t'.k)
    {
      SpaceRunCovers(s, q, t'.k);
      LineCovers(s, t'.k, t'.e);
    }
  }

  /** A whitespace run from `q` to `k` lies within the longest one. */
  lemma {:induction false} SpaceRunCovers(s: string, q: nat, k: nat)
    requires q <= k <= |s|
    requires forall j :: q <= j < k ==> IsSpace(s[j])
    ensures k <= SpaceRunEnd(s, q)
    decreases k - q
  {
    if q < k { SpaceRunCovers(s, q + 1, k); }
  }

  /** A newline-free stretch from `k` to `e` lies within the line. */
  lemma {:induction false} LineCovers(s: string, k: nat, e: nat)
    requires k <= e <= |s|
    requires forall j :: k <= j < e ==> s[j] != '\n'
    ensures e <= LineEnd(s, k)
    decreases e - k
  {
    if k < e { LineCovers(s, k + 1, e); }
  }

  /** `\s*([^\n]+)` from `q`, taking the first way the engine finds. */
  function TailFrom(s: string, q: nat): (t: Option<Tail>)
    requires q <= |s|
    ensures t.Some? ==> IsTailFrom(s, q, t.value)
    ensures t.Some? ==> forall t' :: IsTailFrom(s, q, t') && t' != t.value ==> TailBefore(t.value, t')
    ensures t.None? ==> forall t' :: !IsTailFrom(s, q, t')
  {
    TailBounds(s, q);
    match GiveBack(s, q, SpaceRunEnd(s, q))
    case None => None
    case Some(k) => Some(Tail(q, k, LineEnd(s, k)))
  }

  /** `[:\-]?\s*([^\n]+)` from `p`: first with the separator taken, and only if
      that fails, without it. */
  function MatchTail(s: string, p: nat): (t: Option<Tail>)
    requires p <= |s|
    ensures t.Some? ==> IsTail(s, p, t.value)
    ensures t.Some? ==> forall t' :: IsTail(s, p, t') && t' != t.value ==> TailBefore(t.value, t')
    ensures t.None? ==> forall t' :: !IsTail(s, p, t')
  {
    if p < |s| && IsSep(s[p]) then
      var taken := TailFrom(s, p + 1);
      if taken.Some? then taken else TailFrom(s, p)
    else TailFrom(s, p)
  }

  /** The alternatives `pat[b..]` tried in order at position `i`. */
  function MatchBranches(s: string, pat: Pattern, i: nat, b: nat): (h: Option<Hit>)
    requires i <= |s|
    ensures h.Some? ==> IsHit(s, pat, h.value) && h.value.start == i && b <= h.value.branch
    ensures h.Some? ==> forall h' :: IsHit(s, pat, h') && h'.start == i && b <= h'.branch && h' != h.value ==>
                                      HitBefore(h.value, h')
    ensures h.None? ==> forall h' :: IsHit(s, pat, h') && h'.start == i ==> h'.branch < b
    decreases |pat| - b
  {
    if b >= |pat| then None
    else if LiteralAt(s, pat[b].lit, i) then
      match pat[b]
      case Bare(_) => Some(Hit(i, b, None))
      case Labelled(l) =>
        var t := MatchTail(s, i + |l|);
        if t.Some? then Some(Hit(i, b, t)) else MatchBranches(s, pat, i, b + 1)
    else MatchBranches(s, pat, i, b + 1)
  }

  /** `re.search` from position `i` on: the first position at which some
      alternative matches. */
  function SearchFrom(s: string, pat: Pattern, i: nat): (h: Option<Hit>)
    ensures h.Some? ==> IsHit(s, pat, h.value) && i <= h.value.start
    ensures h.Some? ==> forall h' :: IsHit(s, pat, h') && i <= h'.start && h' != h.value ==> HitBefore(h.value, h')
    ensures h.None? ==> forall h' :: IsHit(s, pat, h') ==> h'.start < i
    decreases |s| + 1 - i
  {
    if i > |s| then None
    else
      var here := MatchBranches(s, pat, i, 0);
      if here.Some? then here else SearchFrom(s, pat, i + 1)
  }

  /** `re.search(pattern, s)`: the match it reports, or None. */
  function Search(s: string, pat: Pattern): (h: Option<Hit>)
    ensures h.Some? ==> FirstHit(s, pat, h.value)
    ensures h.None? <==> forall h' :: !IsHit(s, pat, h')
  {
    SearchFrom(s, pat, 0)
  }

  /// Splicing the field name into the pattern

  /** The characters that would make `re` read a field name as more than
      literal text separated by `|`. */
  predicate IsRegexMeta(c: char) {
    c in ".^$*+?{}[]\\()"
  }

  /** The field names this matcher covers: literal text, possibly with `|`. */
  predicate Spliceable(name: string) {
    forall j :: 0 <= j < |name| ==> !IsRegexMeta(name[j])
  }

  /** The index of the first `|` in `name`, or `|name|` when there is none. */
  function BarIndex(name: string): (j: nat)
    ensures j <= |name|
    ensures forall i :: 0 <= i < j ==> name[i] != '|'
    ensures j < |name| ==> name[j] == '|'
  {
    if |name| == 0 || name[0] == '|' then 0 else 1 + BarIndex(name[1..])
  }

  /** The alternatives written back as text, separated by `|`. */
  function Join(pat: Pattern): string {
    if |pat| == 0 then ""
    else if |pat| == 1 then pat[0].lit
    else pat[0].lit + "|" + Join(pat[1..])
  }

  /** The shape Splice produces: bare alternatives, then one labelled one,
      none with a `|` in it. */
  predicate Spliced(pat: Pattern) {
    |pat| >= 1 && pat[|pat| - 1].Labelled?
    && (forall b :: 0 <= b < |pat| - 1 ==> pat[b].Bare?)
    && (forall b :: 0 <= b < |pat| ==> '|' !in pat[b].lit)
  }

  /** The alternatives of `rf"{name}[:\-]?\s*([^\n]+)"`: `name` cut at every
      `|`, the last piece carrying the separator, whitespace and group. */
  function Splice(name: string): (pat: Pattern)
    ensures Spliced(pat) && Join(pat) == name
    decreases |name|
  {
    var j := BarIndex(name);
    if j == |name| then
      assert '|' !in name;
      [Labelled(name)]
    else
      var rest := Splice(name[j + 1..]);
      assert '|' !in name[..j];
      assert name == name[..j] + "|" + name[j + 1..];
      SplicedCons(name[..j], rest);
      [Bare(name[..j])] + rest
  }

  /** A bare alternative put in front keeps the shape and adds one `|`. */
  lemma SplicedCons(a: string, rest: Pattern)
    requires '|' !in a && Spliced(rest)
    ensures Spliced([Bare(a)] + rest)
    ensures Join([Bare(a)] + rest) == a + "|" + Join(rest)
  {
    var pat := [Bare(a)] + rest;
    assert pat[1..] == rest;
  }

  /** Splice undoes Join on every pattern of that shape. */
  lemma {:induction false} SpliceJoin(pat: Pattern)
    requires Spliced(pat)
    ensures Splice(Join(pat)) == pat
    decreases |pat|
  {
    if |pat| == 1 {
      assert pat == [Labelled(pat[0].lit)];
    } else {
      var a, rest := pat[0].lit, pat[1..];
      SplicedRest(pat);
      SpliceJoin(rest);
      SpliceBarCons(a, Join(rest));
      assert pat[0] == Bare(a);
      assert pat == [pat[0]] + rest;
    }
  }

  lemma SplicedRest(pat: Pattern)
    requires Spliced(pat) && |pat| >= 2
    ensures Spliced(pat[1..])
  {
    var rest := pat[1..];
    forall b | 0 <= b < |rest| ensures '|' !in rest[b].lit { assert rest[b] == pat[b + 1]; }
  }

  /** Splice cuts at the first `|`. */
  lemma SpliceBarCons(a: string, s: string)
    requires '|' !in a
    ensures Splice(a + "|" + s) == [Bare(a)] + Splice(s)
  {
    var name := a + "|" + s;
    BarIndexAt(a, s);
    assert name[..|a|] == a;
    assert name[|a| + 1..] == s;
  }

  /** The first `|` of `a + "|" + b` is the one after `a` when `a` has none. */
  lemma {:induction false} BarIndexAt(a: string, b: string)
    requires '|' !in a
    ensures BarIndex(a + "|" + b) == |a|
    decreases |a|
  {
    if |a| > 0 {
      assert (a + "|" + b)[1..] == a[1..] + "|" + b;
      BarIndexAt(a[1..], b);
    }
  }

  /** Two literal alternatives joined by `|`: a bare one, then a labelled one. */
  lemma SpliceBar(a: string, b: string)
    requires Spliceable(a) && Spliceable(b) && '|' !in a && '|' !in b
    ensures Spliceable(a + "|" + b)
    ensures Splice(a + "|" + b) == [Bare(a), Labelled(b)]
  {
    var pat := [Bare(a), Labelled(b)];
    assert Join(pat[1..]) == b;
    assert Join(pat) == a + "|" + b;
    SpliceJoin(pat);
  }

  /** A field name without `|` splices into a single labelled alternative. */
  lemma SplicePlain(name: string)
    requires '|' !in name
    ensures Splice(name) == [Labelled(name)]
  {
  }

  /// parse_field

  const NotFound := "Not Found"

  /** `match.group(1).strip()` raises AttributeError when group 1 did not
      take part in the match (its value is None). */
  datatype FieldError = GroupNotMatched

  /** `match.group(1).strip() if match else "Not Found"` for the match that
      `re.search` reports for `pat`. A value, found or not, lies on one line
      and has no whitespace at either end; only a bare alternative can make
      it raise. */
  function MatchPattern(text: string, pat: Pattern): (r: Result<string, FieldError>)
    ensures r.Ok? ==> '\n' !in r.value && Trimmed(r.value)
    ensures r.Err? ==> exists b :: 0 <= b < |pat| && pat[b].Bare?
  {
    var found := Search(text, pat);
    match found
    case None => Ok(NotFound)
    case Some(h) =>
      match h.tail
      case None =>
        assert pat[h.branch].Bare?;
        Err(GroupNotMatched)
      case Some(t) =>
        var v := text[t.k..t.e];
        assert '\n' !in v;
        StripChars(v);
        StripSpec(v);
        Ok(Strip(v))
  }

  /** The outcome of the search: "Not Found" when nothing matches, the
      `AttributeError` when the first match took a bare alternative, and
      otherwise its stripped group. */
  lemma MatchPatternSpec(text: string, pat: Pattern)
    ensures (forall h :: !IsHit(text, pat, h)) ==> MatchPattern(text, pat) == Ok(NotFound)
    ensures forall h :: FirstHit(text, pat, h) && h.tail.None? ==>
      MatchPattern(text, pat) == Err(GroupNotMatched)
    ensures forall h :: FirstHit(text, pat, h) && h.tail.Some? ==>
      MatchPattern(text, pat) == Ok(Strip(text[h.tail.value.k..h.tail.value.e]))
  {
    FirstHitUnique(text, pat);
  }

  /** There is at most one match that is tried before all others. */
  lemma FirstHitUnique(s: string, pat: Pattern)
    ensures forall h1, h2 :: FirstHit(s, pat, h1) && FirstHit(s, pat, h2) ==> h1 == h2
  {
  }

  /** `parse_field(text, name)`. The value it returns, found or not, lies on
      one line and has no whitespace at either end; only a field name with a
      `|` in it can make it raise. */
  function ParseField(text: string, name: string): (r: Result<string, FieldError>)
    requires Spliceable(name)
    ensures r.Ok? ==> '\n' !in r.value && Trimmed(r.value)
    ensures r.Err? ==> '|' in name
  {
    var pat := Splice(name);
    assert |pat| == 1 ==> pat[0] == Labelled(name);
    MatchPattern(text, pat)
  }

  /// What parse_field finds for a plain label

  /** `label[:\-]?\s*([^\n]+)` can match at `i`: the label (ignoring ASCII
      case), then an optional separator, a whitespace run that may cross
      newlines, and at least one character that is not a newline. */
  ghost predicate LabelMatchesAt(text: string, name: string, i: nat) {
    LiteralAt(text, name, i) && TailMatches(text, i + |name|)
  }

  /** `[:\-]?\s*([^\n]+)` can match from `p`. */
  ghost predicate TailMatches(text: string, p: nat) {
    exists t :: IsTail(text, p, t)
  }

  /** Group 1, stripped, for the match of the tail that starts at `p`. */
  function CaptureAt(text: string, p: nat): (v: string)
    requires p <= |text| && MatchTail(text, p).Some?
    ensures '\n' !in v && Trimmed(v)
  {
    var t := MatchTail(text, p).value;
    StripChars(text[t.k..t.e]);
    StripSpec(text[t.k..t.e]);
    Strip(text[t.k..t.e])
  }

  /** The value is a piece of the text: the group with its whitespace cut. */
  lemma CaptureInText(text: string, p: nat)
    requires p <= |text| && MatchTail(text, p).Some?
    ensures exists a, b :: 0 <= a <= b <= |text| && CaptureAt(text, p) == text[a..b]
  {
    var t := MatchTail(text, p).value;
    var v := text[t.k..t.e];
    assert CaptureAt(text, p) == Strip(v);
    var a := StripOffset(v);
    var n := |Strip(v)|;
    SliceOfSlice(text, t.k, t.e, a, a + n);
    assert CaptureAt(text, p) == text[t.k + a..t.k + a + n];
  }

  lemma SliceOfSlice(s: string, k: nat, e: nat, a: nat, b: nat)
    requires k <= e <= |s| && a <= b <= e - k
    ensures s[k..e][a..b] == s[k + a..k + b]
  {
    forall i | 0 <= i < b - a ensures s[k..e][a..b][i] == s[k + a..k + b][i] {
      assert s[k..e][a..b][i] == s[k + a + i];
    }
  }

  /** With no `|` in the label, "Not Found" comes back when the label matches
      nowhere. */
  lemma ParseFieldNoMatch(text: string, name: string)
    requires Spliceable(name) && '|' !in name
    requires forall i :: !LabelMatchesAt(text, name, i)
    ensures ParseField(text, name) == Ok(NotFound)
  {
    SplicePlain(name);
    NoLabelledHit(text, name);
    MatchPatternSpec(text, [Labelled(name)]);
  }

  lemma NoLabelledHit(text: string, name: string)
    requires forall i :: !LabelMatchesAt(text, name, i)
    ensures forall h :: !IsHit(text, [Labelled(name)], h)
  {
    forall h | IsHit(text, [Labelled(name)], h) ensures LabelMatchesAt(text, name, h.start) {
      assert IsTail(text, h.start + |name|, h.tail.value);
    }
  }

  /** With no `|` in the label, the value comes from the leftmost index at
      which the label matches, with the tail that the engine tries first. */
  lemma ParseFieldLeftmost(text: string, name: string, i: nat)
    requires Spliceable(name) && '|' !in name
    requires LabelMatchesAt(text, name, i)
    requires forall j :: 0 <= j < i ==> !LabelMatchesAt(text, name, j)
    ensures i + |name| <= |text| && MatchTail(text, i + |name|).Some?
    ensures ParseField(text, name) == Ok(CaptureAt(text, i + |name|))
  {
    var t0 :| IsTail(text, i + |name|, t0);
    var t := MatchTail(text, i + |name|).value;
    SplicePlain(name);
    LeftmostLabelHit(text, name, i, t);
    MatchPatternSpec(text, [Labelled(name)]);
  }

  /** The hit at the leftmost index where the label matches, with the tail
      tried first there, is the one `re.search` reports. */
  lemma LeftmostLabelHit(text: string, name: string, i: nat, t: Tail)
    requires LiteralAt(text, name, i) && MatchTail(text, i + |name|) == Some(t)
    requires forall j :: 0 <= j < i ==> !LabelMatchesAt(text, name, j)
    ensures FirstHit(text, [Labelled(name)], Hit(i, 0, Some(t)))
  {
    var pat, hi := [Labelled(name)], Hit(i, 0, Some(t));
    forall h | IsHit(text, pat, h)
      ensures i <= h.start && (h.start == i && h != hi ==> TailBefore(t, h.tail.value))
    {
      LabelledHit(text, pat, h);
    }
  }

  /** The group of the reported match runs to the next newline or to the end
      of the text: greedy `[^\n]+` never stops short. */
  lemma CaptureRunsToLineEnd(s: string, pat: Pattern, h: Hit)
    requires FirstHit(s, pat, h) && h.tail.Some?
    ensures h.tail.value.e == LineEnd(s, h.tail.value.k)
    ensures h.tail.value.e == |s| || s[h.tail.value.e] == '\n'
  {
    var t := h.tail.value;
    LineCovers(s, t.k, t.e);
    var t2 := Tail(t.q, t.k, LineEnd(s, t.k));
    var h2 := Hit(h.start, h.branch, Some(t2));
    assert IsHit(s, pat, h2);
    assert !HitBefore(h, h2);
  }

  /// What parse_field finds for a label `a|b`

  /** A match that took a labelled alternative: the label and the tail
      match where it starts. */
  lemma LabelledHit(text: string, pat: Pattern, h: Hit)
    requires IsHit(text, pat, h) && pat[h.branch].Labelled?
    ensures h.tail.Some? && IsTail(text, h.start + |pat[h.branch].lit|, h.tail.value)
    ensures LabelMatchesAt(text, pat[h.branch].lit, h.start)
  {
    assert IsTail(text, h.start + |pat[h.branch].lit|, h.tail.value);
  }

  /** The pattern of `a|b` is `a` alone, or `b` with the tail. When a bare
      `a` begins before any place where `b` and the tail match, the match
      takes the alternative without the group and `group(1)` raises. */
  lemma BareFirst(text: string, a: string, b: string, i: nat)
    requires LiteralAt(text, a, i)
    requires forall j :: 0 <= j < i ==> !LiteralAt(text, a, j) && !LabelMatchesAt(text, b, j)
    ensures MatchPattern(text, [Bare(a), Labelled(b)]) == Err(GroupNotMatched)
  {
    var pat, hi := [Bare(a), Labelled(b)], Hit(i, 0, None);
    assert IsHit(text, pat, hi);
    forall h | IsHit(text, pat, h) && h.branch == 1 ensures i <= h.start {
      LabelledHit(text, pat, h);
    }
    MatchPatternSpec(text, pat);
  }

  /** When `b` and the tail match at `i` and no `a` begins at or before `i`,
      the value is the group of that match, as for the label `b` alone. */
  lemma LabelledFirst(text: string, a: string, b: string, i: nat)
    requires LabelMatchesAt(text, b, i)
    requires forall j :: 0 <= j <= i ==> !LiteralAt(text, a, j)
    requires forall j :: 0 <= j < i ==> !LabelMatchesAt(text, b, j)
    ensures i + |b| <= |text| && MatchTail(text, i + |b|).Some?
    ensures MatchPattern(text, [Bare(a), Labelled(b)]) == Ok(CaptureAt(text, i + |b|))
  {
    var t0 :| IsTail(text, i + |b|, t0);
    var t := MatchTail(text, i + |b|).value;
    LabelledFirstHit(text, a, b, i, t);
    MatchPatternSpec(text, [Bare(a), Labelled(b)]);
  }

  lemma LabelledFirstHit(text: string, a: string, b: string, i: nat, t: Tail)
    requires LiteralAt(text, b, i) && MatchTail(text, i + |b|) == Some(t)
    requires forall j :: 0 <= j <= i ==> !LiteralAt(text, a, j)
    requires forall j :: 0 <= j < i ==> !LabelMatchesAt(text, b, j)
    ensures FirstHit(text, [Bare(a), Labelled(b)], Hit(i, 1, Some(t)))
  {
    var pat, hi := [Bare(a), Labelled(b)], Hit(i, 1, Some(t));
    forall h | IsHit(text, pat, h) && h.branch == 0 ensures i < h.start {
      assert LiteralAt(text, a, h.start);
    }
    forall h | IsHit(text, pat, h) && h.branch == 1
      ensures i <= h.start && (h.start == i && h != hi ==> TailBefore(t, h.tail.value))
    {
      LabelledHit(text, pat, h);
    }
  }

  /** When neither `a` nor `b` with the tail matches anywhere, the value is
      "Not Found". */
  lemma NeitherMatches(text: string, a: string, b: string)
    requires forall i :: !LiteralAt(text, a, i) && !LabelMatchesAt(text, b, i)
    ensures MatchPattern(text, [Bare(a), Labelled(b)]) == Ok(NotFound)
  {
    var pat := [Bare(a), Labelled(b)];
    forall h | IsHit(text, pat, h) && h.branch == 1 ensures LabelMatchesAt(text, b, h.start) {
      LabelledHit(text, pat, h);
    }
    MatchPatternSpec(text, pat);
  }

  /** With the tail on both alternatives, the leftmost place where `a` with
      the tail matches wins when `b` with the tail matches nowhere before. */
  lemma EitherFirst(text: string, a: string, b: string, i: nat)
    requires LabelMatchesAt(text, a, i)
    requires forall j :: 0 <= j < i ==> !LabelMatchesAt(text, a, j) && !LabelMatchesAt(text, b, j)
    ensures i + |a| <= |text| && MatchTail(text, i + |a|).Some?
    ensures MatchPattern(text, [Labelled(a), Labelled(b)]) == Ok(CaptureAt(text, i + |a|))
  {
    var t0 :| IsTail(text, i + |a|, t0);
    var t := MatchTail(text, i + |a|).value;
    EitherFirstHit(text, a, b, i, t);
    MatchPatternSpec(text, [Labelled(a), Labelled(b)]);
  }

  lemma EitherFirstHit(text: string, a: string, b: string, i: nat, t: Tail)
    requires LiteralAt(text, a, i) && MatchTail(text, i + |a|) == Some(t)
    requires forall j :: 0 <= j < i ==> !LabelMatchesAt(text, a, j) && !LabelMatchesAt(text, b, j)
    ensures FirstHit(text, [Labelled(a), Labelled(b)], Hit(i, 0, Some(t)))
  {
    var pat, hi := [Labelled(a), Labelled(b)], Hit(i, 0, Some(t));
    forall h | IsHit(text, pat, h) && h.branch == 0
      ensures i <= h.start && (h.start == i && h != hi ==> TailBefore(t, h.tail.value))
    {
      LabelledHit(text, pat, h);
    }
    forall h | IsHit(text, pat, h) && h.branch == 1 ensures i <= h.start {
      LabelledHit(text, pat, h);
    }
  }

  /** Making the bare alternative a labelled one keeps a first match that
      took the labelled alternative: the new matches all start where a bare
      `a` already matched. */
  lemma WidenBare(text: string, a: string, b: string, h: Hit)
    requires FirstHit(text, [Bare(a), Labelled(b)], h) && h.branch == 1
    ensures FirstHit(text, [Labelled(a), Labelled(b)], h)
  {
    var p0, p1 := [Bare(a), Labelled(b)], [Labelled(a), Labelled(b)];
    forall h' | IsHit(text, p1, h') && h' != h ensures HitBefore(h, h') {
      if h'.branch == 0 {
        var hb := Hit(h'.start, 0, None);
        assert IsHit(text, p0, hb);
      } else {
        assert IsHit(text, p0, h');
      }
    }
  }

  /** Nor does the change create a match where there was none. */
  lemma WidenBareNone(text: string, a: string, b: string)
    requires forall h :: !IsHit(text, [Bare(a), Labelled(b)], h)
    ensures forall h :: !IsHit(text, [Labelled(a), Labelled(b)], h)
  {
    var p0, p1 := [Bare(a), Labelled(b)], [Labelled(a), Labelled(b)];
    forall h | IsHit(text, p1, h)
      ensures IsHit(text, p0, if h.branch == 0 then Hit(h.start, 0, None) else h)
    {
    }
  }

  /** Whenever `a|b` does not raise, the value it gives is the one of
      `(?:a|b)` with the tail on both alternatives. */
  lemma WidenBareAgrees(text: string, a: string, b: string)
    requires MatchPattern(text, [Bare(a), Labelled(b)]).Ok?
    ensures MatchPattern(text, [Labelled(a), Labelled(b)]) == MatchPattern(text, [Bare(a), Labelled(b)])
  {
    var p0, p1 := [Bare(a), Labelled(b)], [Labelled(a), Labelled(b)];
    MatchPatternSpec(text, p0);
    MatchPatternSpec(text, p1);
    var found := Search(text, p0);
    if found.Some? {
      var h := found.value;
      if h.branch == 0 {
        assert h.tail.None?;
      } else {
        WidenBare(text, a, b, h);
      }
    } else {
      WidenBareNone(text, a, b);
    }
  }

  /// Concrete matches

  /** A value on the label's own line: "Name: Alice Smith" gives "Alice Smith". */
  lemma NameExample(text: string)
    requires text == "Name: Alice Smith"
    ensures ParseField(text, "Name") == Ok("Alice Smith")
  {
    AliceSmithTail(text);
    LabelExample(text, "Name", Tail(5, 6, 17), "Alice Smith");
  }

  lemma AliceSmithTail(text: string)
    requires text == "Name: Alice Smith"
    ensures MatchTail(text, 4) == Some(Tail(5, 6, 17))
    ensures Strip(text[6..17]) == "Alice Smith"
  {
    assert text[6..17] == "Alice Smith";
    StripTrimmed("Alice Smith");
    assert SpaceRunEnd(text, 5) == 6;
    assert GiveBack(text, 5, 6) == Some(6);
    LineCovers(text, 6, 17);
  }

  /** Greedy `\s*` crosses newlines: a value on the line after the label is
      still found, and the label's case does not matter. */
  lemma NextLineExample(text: string)
    requires text == "name:\nBob"
    ensures ParseField(text, "Name") == Ok("Bob")
  {
    BobTail(text);
    LabelExample(text, "Name", Tail(5, 6, 9), "Bob");
  }

  lemma BobTail(text: string)
    requires text == "name:\nBob"
    ensures MatchTail(text, 4) == Some(Tail(5, 6, 9))
    ensures Strip(text[6..9]) == "Bob"
  {
    assert SpaceRunEnd(text, 5) == 6;
    assert GiveBack(text, 5, 6) == Some(6);
    LineCovers(text, 6, 9);
    assert text[6..9] == "Bob";
    StripTrimmed("Bob");
  }

  /** Only spaces after the label at the end of the text: `\s*` gives one
      space back to `[^\n]+`, and the stripped value is empty. */
  lemma TrailingSpacesExample(text: string)
    requires text == "Name:  "
    ensures ParseField(text, "Name") == Ok("")
  {
    assert TailFrom(text, 5) == Some(Tail(5, 6, 7));
    assert text[6..7] == " ";
    LabelExample(text, "Name", Tail(5, 6, 7), "");
  }

  /** A label and colon at the very end: nothing can follow the taken colon,
      so `[:\-]?` gives it back and the colon itself becomes the value. */
  lemma BareColonExample(text: string)
    requires text == "Name:"
    ensures ParseField(text, "Name") == Ok(":")
  {
    assert TailFrom(text, 5) == None;
    assert TailFrom(text, 4) == Some(Tail(4, 4, 5));
    assert text[4..5] == ":";
    LabelExample(text, "Name", Tail(4, 4, 5), ":");
  }

  /** A text that begins with the label: the value is the stripped group of
      the tail the engine tries first after it. */
  lemma LabelExample(s: string, name: string, t: Tail, v: string)
    requires Spliceable(name) && '|' !in name && LiteralAt(s, name, 0)
    requires MatchTail(s, |name|) == Some(t) && t.k <= t.e <= |s| && Strip(s[t.k..t.e]) == v
    ensures ParseField(s, name) == Ok(v)
  {
    ParseFieldLeftmost(s, name, 0);
  }
}
