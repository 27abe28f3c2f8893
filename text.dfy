/** Text helpers of the ingestion pipeline: Python's whitespace class, `str.strip()`,
    the whitespace-collapsing `normalize_text`, lower-casing and substring search. */
module Text {

  /** The characters Python treats as whitespace, both for the regex class `\s`
      and for `str.strip()` / `str.isspace()`. */
  predicate IsSpace(c: char) {
    c == ' ' || ('\t' <= c <= '\r') || ('\U{1C}' <= c <= '\U{1F}')
    || c == '\U{85}' || c == '\U{A0}' || c == '\U{1680}'
    || ('\U{2000}' <= c <= '\U{200A}') || c == '\U{2028}' || c == '\U{2029}'
    || c == '\U{202F}' || c == '\U{205F}' || c == '\U{3000}'
  }

  lemma AppendAssoc<T>(a: seq<T>, b: seq<T>, c: seq<T>)
    ensures a + b + c == a + (b + c)
  {
  }

  lemma HeadThenTail<T>(pre: seq<T>, s: seq<T>)
    requires s != []
    ensures pre + [s[0]] + s[1..] == pre + s
  {
    assert [s[0]] + s[1..] == s;
    AppendAssoc(pre, [s[0]], s[1..]);
  }

  lemma SuffixSlices<T>(s: seq<T>, i: nat, m: nat)
    requires i + m <= |s|
    ensures s[i..][..m] == s[i..i + m] && s[i..][m..] == s[i + m..]
  {
  }

  lemma ConsPair<T>(x: T, y: T, s: seq<T>)
    ensures [x] + ([y] + s) == [x, y] + s
  {
  }

  predicate AllSpace(s: string) {
    forall i :: 0 <= i < |s| ==> IsSpace(s[i])
  }

  lemma AllSpaceCons(c: char, w: string)
    requires IsSpace(c) && AllSpace(w)
    ensures AllSpace([c] + w)
  {
    assert forall i :: 0 < i < |w| + 1 ==> ([c] + w)[i] == w[i - 1];
  }

  lemma AllSpaceSnoc(w: string, c: char)
    requires AllSpace(w) && IsSpace(c)
    ensures AllSpace(w + [c])
  {
    assert forall i :: 0 <= i < |w| ==> (w + [c])[i] == w[i];
  }

  /** The non-whitespace characters of `s`, in order. */
  function NonSpace(s: string): string {
    if s == [] then []
    else (if IsSpace(s[0]) then [] else [s[0]]) + NonSpace(s[1..])
  }

  lemma {:induction false} NonSpaceAppend(a: string, b: string)
    ensures NonSpace(a + b) == NonSpace(a) + NonSpace(b)
  {
    if a == [] {
      assert a + b == b;
    } else {
      assert (a + b)[1..] == a[1..] + b;
      NonSpaceAppend(a[1..], b);
    }
  }

  lemma {:induction false} NonSpaceOfSpaces(s: string)
    requires AllSpace(s)
    ensures NonSpace(s) == []
  {
    if s != [] {
      NonSpaceOfSpaces(s[1..]);
    }
  }

  /** `s` with its leading whitespace removed (`str.lstrip()`). */
  function TrimStart(s: string): (r: string)
    ensures |r| <= |s| && r == s[|s| - |r|..]
    ensures r == [] || !IsSpace(r[0])
    ensures AllSpace(s[..|s| - |r|])
  {
    if s != [] && IsSpace(s[0]) then
      var r := TrimStart(s[1..]);
      assert s[..|s| - |r|] == [s[0]] + s[1..][..|s| - 1 - |r|];
      AllSpaceCons(s[0], s[1..][..|s| - 1 - |r|]);
      r
    else s
  }

  /** `s` with its trailing whitespace removed (`str.rstrip()`). */
  function TrimEnd(s: string): (r: string)
    ensures |r| <= |s| && r == s[..|r|]
    ensures r == [] || !IsSpace(r[|r| - 1])
    ensures AllSpace(s[|r|..])
  {
    if s != [] && IsSpace(s[|s| - 1]) then
      var r := TrimEnd(s[..|s| - 1]);
      assert s[|r|..] == s[..|s| - 1][|r|..] + [s[|s| - 1]];
      AllSpaceSnoc(s[..|s| - 1][|r|..], s[|s| - 1]);
      r
    else s
  }

  lemma TrimStartKeepsNonSpace(s: string)
    ensures NonSpace(TrimStart(s)) == NonSpace(s)
  {
    var t := TrimStart(s);
    assert s == s[..|s| - |t|] + t;
    NonSpaceAppend(s[..|s| - |t|], t);
    NonSpaceOfSpaces(s[..|s| - |t|]);
  }

  lemma TrimEndKeepsNonSpace(s: string)
    ensures NonSpace(TrimEnd(s)) == NonSpace(s)
  {
    var r := TrimEnd(s);
    assert s == r + s[|r|..];
    NonSpaceAppend(r, s[|r|..]);
    NonSpaceOfSpaces(s[|r|..]);
  }

  /** Python's `str.strip()` with no argument. */
  function Strip(s: string): (r: string)
    ensures |r| <= |s|
    ensures r == [] || (!IsSpace(r[0]) && !IsSpace(r[|r| - 1]))
  {
    var t := TrimStart(s);
    var r := TrimEnd(t);
    assert r != [] ==> r[0] == t[0];
    r
  }

  /** Stripping keeps every non-whitespace character, in order, so it gives the empty
      string exactly when the input is all whitespace. */
  lemma StripKeepsNonSpace(s: string)
    ensures NonSpace(Strip(s)) == NonSpace(s)
    ensures Strip(s) == [] <==> NonSpace(s) == []
  {
    TrimStartKeepsNonSpace(s);
    TrimEndKeepsNonSpace(TrimStart(s));
    NonSpaceHead(Strip(s));
  }

  /** A string that starts with a non-space has non-space characters. */
  lemma NonSpaceHead(r: string)
    requires r == [] || !IsSpace(r[0])
    ensures r == [] <==> NonSpace(r) == []
  {
    if r != [] {
      NonSpaceAppend([r[0]], r[1..]);
      assert r == [r[0]] + r[1..];
    }
  }

  /** Every whitespace character of `s` is a plain space. */
  predicate PlainSpaces(s: string) {
    forall i :: 0 <= i < |s| && IsSpace(s[i]) ==> s[i] == ' '
  }

  /** No two whitespace characters of `s` are adjacent. */
  ghost predicate NoDoubleSpace(s: string) {
    forall i, j :: 0 <= i && j == i + 1 && j < |s| ==> !(IsSpace(s[i]) && IsSpace(s[j]))
  }

  /** The shape `normalize_text` produces: words separated by single spaces,
      nothing at either end. */
  ghost predicate IsNormal(s: string) {
    && (s == [] || (!IsSpace(s[0]) && !IsSpace(s[|s| - 1])))
    && PlainSpaces(s)
    && NoDoubleSpace(s)
  }

  /** `re.sub(r"\s+", " ", t)`: every maximal run of whitespace becomes one space. */
  function Collapse(t: string): (r: string)
    ensures |r| <= |t|
    ensures r == [] <==> t == []
    ensures r != [] ==> (IsSpace(r[0]) <==> IsSpace(t[0]))
    decreases |t|
  {
    if t == [] then []
    else if IsSpace(t[0]) then [' '] + Collapse(TrimStart(t))
    else [t[0]] + Collapse(t[1..])
  }

  lemma CollapseSpaceHead(s: string)
    requires s != [] && IsSpace(s[0])
    ensures Collapse(s) == [' '] + Collapse(TrimStart(s))
  {
  }

  lemma CollapseWordHead(s: string)
    requires s != [] && !IsSpace(s[0])
    ensures Collapse(s) == [s[0]] + Collapse(s[1..])
  {
  }

  /** Collapsing keeps the non-whitespace characters, in order. */
  lemma {:induction false} CollapseKeepsNonSpace(t: string)
    ensures NonSpace(Collapse(t)) == NonSpace(t)
    decreases |t|
  {
    if t != [] {
      if IsSpace(t[0]) {
        var rest := TrimStart(t);
        CollapseSpaceHead(t);
        CollapseKeepsNonSpace(rest);
        TrimStartKeepsNonSpace(t);
        NonSpaceAppend([' '], Collapse(rest));
      } else {
        CollapseWordHead(t);
        CollapseKeepsNonSpace(t[1..]);
        NonSpaceAppend([t[0]], Collapse(t[1..]));
        NonSpaceAppend([t[0]], t[1..]);
        assert t == [t[0]] + t[1..];
      }
    }
  }

  /** Collapsing leaves only single plain spaces between words. */
  lemma {:induction false} CollapseSpacing(t: string)
    ensures PlainSpaces(Collapse(t)) && NoDoubleSpace(Collapse(t))
    decreases |t|
  {
    if t != [] {
      if IsSpace(t[0]) {
        var rest := TrimStart(t);
        CollapseSpaceHead(t);
        CollapseSpacing(rest);
        SpacingCons(' ', Collapse(rest));
      } else {
        CollapseWordHead(t);
        CollapseSpacing(t[1..]);
        SpacingCons(t[0], Collapse(t[1..]));
      }
    }
  }

  /** Collapsing keeps the non-whitespace characters in order and leaves only single
      plain spaces between them. */
  lemma CollapseShape(t: string)
    ensures NonSpace(Collapse(t)) == NonSpace(t)
    ensures PlainSpaces(Collapse(t)) && NoDoubleSpace(Collapse(t))
  {
    CollapseKeepsNonSpace(t);
    CollapseSpacing(t);
  }

  /** Putting a plain space before a string that starts with a non-space, or a
      non-space before any string, keeps the spacing single and plain. */
  lemma SpacingCons(x: char, c: string)
    requires PlainSpaces(c) && NoDoubleSpace(c)
    requires (x == ' ' && (c == [] || !IsSpace(c[0]))) || !IsSpace(x)
    ensures PlainSpaces([x] + c) && NoDoubleSpace([x] + c)
  {
    var s := [x] + c;
    forall i, j | 0 <= i && j == i + 1 && j < |s| ensures !(IsSpace(s[i]) && IsSpace(s[j])) {
      if i > 0 {
        assert s[i] == c[i - 1] && s[j] == c[j - 1];
      }
    }
  }

  /** A slice of a string with single plain spaces has single plain spaces. */
  lemma SliceSpacing(s: string, i: nat, j: nat)
    requires i <= j <= |s| && PlainSpaces(s) && NoDoubleSpace(s)
    ensures PlainSpaces(s[i..j]) && NoDoubleSpace(s[i..j])
  {
    assert forall k :: 0 <= k < j - i ==> s[i..j][k] == s[i + k];
  }

  /** Stripping a string with single plain spaces gives a string in normal form. */
  lemma StripNormal(c: string)
    requires PlainSpaces(c) && NoDoubleSpace(c)
    ensures IsNormal(Strip(c)) && |Strip(c)| <= |c|
  {
    var a := TrimStart(c);
    SliceSpacing(c, |c| - |a|, |c|);
    SliceSpacing(a, 0, |TrimEnd(a)|);
  }

  /** `normalize_text` (utils.py): collapse whitespace runs, then strip. */
  function Normalize(t: string): (r: string)
    ensures |r| <= |t|
    ensures r == [] || (!IsSpace(r[0]) && !IsSpace(r[|r| - 1]))
  {
    Strip(Collapse(t))
  }

  /** The result of `normalize_text` is in normal form and keeps the non-whitespace
      characters of its input, in order. */
  lemma NormalizeShape(t: string)
    ensures IsNormal(Normalize(t))
    ensures NonSpace(Normalize(t)) == NonSpace(t)
  {
    CollapseShape(t);
    StripNormal(Collapse(t));
    StripKeepsNonSpace(Collapse(t));
  }

  /** A single leading space before a non-space is all `lstrip` removes. */
  lemma TrimStartOne(s: string)
    requires s != [] && IsSpace(s[0]) && (|s| == 1 || !IsSpace(s[1]))
    ensures TrimStart(s) == s[1..]
  {
    assert TrimStart(s) == TrimStart(s[1..]);
  }

  /** A string already in normal form is left unchanged by `normalize_text`. */
  lemma {:induction false} CollapseNormal(s: string)
    requires PlainSpaces(s) && NoDoubleSpace(s)
    ensures Collapse(s) == s
    decreases |s|
  {
    if s != [] {
      SliceSpacing(s, 1, |s|);
      CollapseNormal(s[1..]);
      if IsSpace(s[0]) {
        TrimStartOne(s);
        CollapseSpaceHead(s);
        assert s == [' '] + s[1..];
      } else {
        CollapseWordHead(s);
        assert s == [s[0]] + s[1..];
      }
    }
  }

  lemma NormalFixed(s: string)
    requires IsNormal(s)
    ensures Normalize(s) == s
  {
    CollapseNormal(s);
    assert TrimStart(s) == s && TrimEnd(s) == s;
  }

  /** Applying `normalize_text` twice gives the same result as applying it once. */
  lemma NormalizeIdempotent(t: string)
    ensures Normalize(Normalize(t)) == Normalize(t)
  {
    NormalizeShape(t);
    NormalFixed(Normalize(t));
  }

  /** `r` is the slice of `s` that starts at `i`, with only whitespace before and after it. */
  predicate SpaceAround(s: string, r: string, i: nat) {
    i + |r| <= |s| && r == s[i..i + |r|] && AllSpace(s[..i]) && AllSpace(s[i + |r|..])
  }

  /** `str.strip()` removes one leading and one trailing whitespace run and nothing
      else: the result is a slice of the input with only whitespace around it. */
  lemma StripRemovesEnds(s: string)
    ensures exists i: nat :: SpaceAround(s, Strip(s), i)
  {
    var t := TrimStart(s);
    var r := TrimEnd(t);
    var i := |s| - |t|;
    assert Strip(s) == r;
    assert SpaceAround(s, r, i) by {
      assert t == s[i..] && r == t[..|r|];
      SuffixSlices(s, i, |r|);
      assert AllSpace(s[..i]) && AllSpace(t[|r|..]);
    }
  }

  // ---------------------------------------------------------------------------
  // Whitespace runs between words
  // ---------------------------------------------------------------------------

  /** Removing a whitespace run from the front of a word leaves the word. */
  lemma {:induction false} TrimStartSpacesThen(w: string, x: string)
    requires AllSpace(w) && (x == [] || !IsSpace(x[0]))
    ensures TrimStart(w + x) == x
  {
    if w != [] {
      assert (w + x)[1..] == w[1..] + x;
      TrimStartSpacesThen(w[1..], x);
    } else {
      assert w + x == x;
    }
  }

  /** A whitespace run before a word collapses to one space. */
  lemma CollapseGapThen(gap: string, rest: string)
    requires gap != [] && AllSpace(gap) && (rest == [] || !IsSpace(rest[0]))
    ensures Collapse(gap + rest) == [' '] + Collapse(rest)
  {
    assert (gap + rest)[0] == gap[0];
    CollapseSpaceHead(gap + rest);
    TrimStartSpacesThen(gap, rest);
  }

  /** A word character before any text stays in place. */
  lemma CollapseWordThen(c: char, x: string)
    requires !IsSpace(c)
    ensures Collapse([c] + x) == [c] + Collapse(x)
  {
    assert ([c] + x)[0] == c && ([c] + x)[1..] == x;
    CollapseWordHead([c] + x);
  }

  /** A string with no whitespace at either end is left unchanged by `str.strip()`. */
  lemma StripUnchanged(s: string)
    requires s != [] && !IsSpace(s[0]) && !IsSpace(s[|s| - 1])
    ensures Strip(s) == s
  {
    assert TrimStart(s) == s && TrimEnd(s) == s;
  }

  /** Leading whitespace of a string that ends in a non-space lies inside that string. */
  lemma {:induction false} TrimStartAppend(a: string, x: string)
    requires a != [] && !IsSpace(a[|a| - 1])
    ensures TrimStart(a + x) == TrimStart(a) + x
  {
    assert (a + x)[0] == a[0];
    if IsSpace(a[0]) {
      assert (a + x)[1..] == a[1..] + x;
      TrimStartAppend(a[1..], x);
    }
  }

  /** Trailing whitespace of a string that starts with a non-space lies inside that string. */
  lemma {:induction false} TrimEndAppend(u: string, v: string)
    requires v != [] && !IsSpace(v[0])
    ensures TrimEnd(u + v) == u + TrimEnd(v)
  {
    assert (u + v)[|u + v| - 1] == v[|v| - 1];
    if IsSpace(v[|v| - 1]) {
      assert (u + v)[..|u + v| - 1] == u + v[..|v| - 1];
      TrimEndAppend(u, v[..|v| - 1]);
    }
  }

  /** Removing leading whitespace keeps a final non-space character. */
  lemma {:induction false} TrimStartKeepsLast(a: string)
    requires a != [] && !IsSpace(a[|a| - 1])
    ensures TrimStart(a) != [] && TrimStart(a)[|TrimStart(a)| - 1] == a[|a| - 1]
    ensures !IsSpace(TrimStart(a)[|TrimStart(a)| - 1])
    ensures IsSpace(a[0]) ==> |TrimStart(a)| < |a|
  {
    if IsSpace(a[0]) {
      TrimStartKeepsLast(a[1..]);
    }
  }

  /** A final non-space character survives collapsing. */
  lemma {:induction false} CollapseLast(a: string)
    requires a != [] && !IsSpace(a[|a| - 1])
    ensures Collapse(a) != [] && Collapse(a)[|Collapse(a)| - 1] == a[|a| - 1]
    decreases |a|
  {
    if IsSpace(a[0]) {
      TrimStartKeepsLast(a);
      CollapseLast(TrimStart(a));
      CollapseSpaceHead(a);
    } else {
      if |a| > 1 {
        CollapseLast(a[1..]);
      }
      CollapseWordHead(a);
    }
  }

  lemma CollapseAppendSpaceStep(a: string, x: string)
    requires a != [] && IsSpace(a[0]) && !IsSpace(a[|a| - 1])
    requires Collapse(TrimStart(a) + x) == Collapse(TrimStart(a)) + Collapse(x)
    ensures Collapse(a + x) == Collapse(a) + Collapse(x)
  {
    CollapseSpaceHead(a);
    assert (a + x)[0] == a[0];
    CollapseSpaceHead(a + x);
    TrimStartAppend(a, x);
    AppendAssoc([' '], Collapse(TrimStart(a)), Collapse(x));
  }

  lemma CollapseAppendWordStep(c: char, r: string, x: string)
    requires !IsSpace(c)
    requires Collapse(r + x) == Collapse(r) + Collapse(x)
    ensures Collapse([c] + r + x) == Collapse([c] + r) + Collapse(x)
  {
    AppendAssoc([c], r, x);
    CollapseWordThen(c, r + x);
    CollapseWordThen(c, r);
    AppendAssoc([c], Collapse(r), Collapse(x));
  }

  /** Collapsing works piece by piece across a point that follows a non-space. */
  lemma {:induction false} CollapseAppend(a: string, x: string)
    requires a == [] || !IsSpace(a[|a| - 1])
    ensures Collapse(a + x) == Collapse(a) + Collapse(x)
    decreases |a|
  {
    if a == [] {
      assert a + x == x;
    } else if IsSpace(a[0]) {
      TrimStartKeepsLast(a);
      CollapseAppend(TrimStart(a), x);
      CollapseAppendSpaceStep(a, x);
    } else {
      CollapseAppend(a[1..], x);
      CollapseAppendWordStep(a[0], a[1..], x);
      assert [a[0]] + a[1..] == a;
    }
  }

  /** Stripping around one inner space strips the two sides separately. */
  lemma StripAroundSpace(u: string, v: string)
    requires u != [] && !IsSpace(u[|u| - 1]) && v != [] && !IsSpace(v[0])
    ensures Strip(u + " " + v) == Strip(u) + " " + Strip(v)
  {
    var tu := TrimStart(u);
    assert TrimStart(u + " " + v) == tu + " " + v by {
      AppendAssoc(u, " ", v);
      TrimStartAppend(u, " " + v);
      AppendAssoc(tu, " ", v);
    }
    TrimEndAppend(tu + " ", v);
    TrimStartKeepsLast(u);
    assert TrimEnd(tu) == tu;
    assert TrimStart(v) == v;
  }

  /** `normalize_text` turns a whitespace run between two words into exactly one space
      and normalises the two sides on their own. */
  lemma NormalizeJoin(a: string, gap: string, b: string)
    requires a != [] && !IsSpace(a[|a| - 1])
    requires gap != [] && AllSpace(gap)
    requires b != [] && !IsSpace(b[0])
    ensures Normalize(a + gap + b) == Normalize(a) + " " + Normalize(b)
  {
    assert Collapse(a + gap + b) == Collapse(a) + " " + Collapse(b) by {
      AppendAssoc(a, gap, b);
      CollapseAppend(a, gap + b);
      CollapseGapThen(gap, b);
      AppendAssoc(Collapse(a), " ", Collapse(b));
    }
    CollapseLast(a);
    StripAroundSpace(Collapse(a), Collapse(b));
  }

  /** `str.lower()` on one character, for the ASCII letters. */
  function LowerChar(c: char): (r: char)
    ensures 'A' <= c <= 'Z' ==> 'a' <= r <= 'z' && r as int - 'a' as int == c as int - 'A' as int
    ensures !('A' <= c <= 'Z') ==> r == c
  {
    if 'A' <= c <= 'Z' then (c as int - 'A' as int + 'a' as int) as char else c
  }

  /** `str.lower()`. */
  function Lower(s: string): (r: string)
    ensures |r| == |s|
    ensures forall i :: 0 <= i < |s| ==> r[i] == LowerChar(s[i])
  {
    seq(|s|, i requires 0 <= i < |s| => LowerChar(s[i]))
  }

  /** `needle` occurs in `hay` starting at position `i`. */
  predicate OccursAt(needle: string, hay: string, i: nat) {
    i + |needle| <= |hay| && hay[i..i + |needle|] == needle
  }

  /** Python's `needle in hay` for strings. */
  function Contains(needle: string, hay: string): (b: bool)
    ensures b <==> exists i: nat :: OccursAt(needle, hay, i)
    decreases |hay|
  {
    if |needle| <= |hay| && hay[..|needle|] == needle then
      assert OccursAt(needle, hay, 0);
      true
    else if |hay| <= |needle| then
      assert forall i: nat :: !OccursAt(needle, hay, i);
      false
    else
      var b := Contains(needle, hay[1..]);
      assert forall i: nat :: OccursAt(needle, hay[1..], i) <==> OccursAt(needle, hay, i + 1);
      assert !OccursAt(needle, hay, 0);
      assert forall i: nat :: OccursAt(needle, hay, i) ==> i == 0 || OccursAt(needle, hay[1..], i - 1);
      b
  }
}
