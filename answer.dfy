/** The rule-based answer synthesiser `synthesize_answer` (utils.py): deduplicate the hit
    texts case-insensitively, then either number the short ones when the query asks for a
    list, or join the first four into a paragraph. */
module Answer {
  import opened Text
  import opened Store

  const NotFoundMessage: string := "No relevant information was found in the uploaded documents."
  const ListHeader: string := "Based on the retrieved documents, " + "the following items are identified:\n\n"
  const ListKeywords: seq<string> := ["list", "laws", "acts", "units", "types"]
  /** List items must be shorter than this. */
  const MaxItemLength: nat := 200
  /** The narrative answer joins at most this many evidence texts. */
  const NarrativeItems: nat := 4

  /** `any(k in query.lower() for k in [...])`. */
  predicate IsListQuery(query: string) {
    exists k :: k in ListKeywords && Contains(k, Lower(query))
  }

  /** The texts of the hits, in order. */
  function Texts(hits: seq<Hit>): (r: seq<string>)
    ensures |r| == |hits| && forall i :: 0 <= i < |hits| ==> r[i] == hits[i].text
  {
    seq(|hits|, i requires 0 <= i < |hits| => hits[i].text)
  }

  /** The lower-cased keys of a list of texts. */
  function Keys(texts: seq<string>): set<string> {
    set t | t in texts :: Lower(t)
  }

  // ---------------------------------------------------------------------------
  // Evidence: case-insensitive deduplication, first occurrence kept
  // ---------------------------------------------------------------------------

  /** The texts whose lower-cased key is neither in `seen` nor the key of an earlier text. */
  function DedupFrom(texts: seq<string>, seen: set<string>): (r: seq<string>)
    ensures |r| <= |texts|
  {
    if texts == [] then []
    else if Lower(texts[0]) in seen then DedupFrom(texts[1..], seen)
    else [texts[0]] + DedupFrom(texts[1..], seen + {Lower(texts[0])})
  }

  /** Every kept text is one of the texts, and its key was not already seen. */
  lemma {:induction false} DedupSound(texts: seq<string>, seen: set<string>)
    ensures forall x :: x in DedupFrom(texts, seen) ==> x in texts && Lower(x) !in seen
  {
    if texts != [] {
      var rest := texts[1..];
      if Lower(texts[0]) in seen {
        DedupSound(rest, seen);
      } else {
        DedupSound(rest, seen + {Lower(texts[0])});
      }
      assert texts == [texts[0]] + rest;
      forall x | x in DedupFrom(texts, seen) ensures x in texts && Lower(x) !in seen {
        if x != texts[0] {
          assert x in rest;
        }
      }
    }
  }

  /** No two texts share a lower-cased key. */
  predicate DistinctKeys(r: seq<string>) {
    forall i, j :: 0 <= i < j < |r| ==> Lower(r[i]) != Lower(r[j])
  }

  /** No two kept texts share a key. */
  lemma {:induction false} DedupDistinct(texts: seq<string>, seen: set<string>)
    ensures DistinctKeys(DedupFrom(texts, seen))
  {
    if texts != [] && Lower(texts[0]) in seen {
      DedupDistinct(texts[1..], seen);
    } else if texts != [] {
      var key := Lower(texts[0]);
      var rest := DedupFrom(texts[1..], seen + {key});
      DedupDistinct(texts[1..], seen + {key});
      DedupSound(texts[1..], seen + {key});
      var r := [texts[0]] + rest;
      forall i, j | 0 <= i < j < |r| ensures Lower(r[i]) != Lower(r[j]) {
        assert r[j] == rest[j - 1];
        if i > 0 {
          assert r[i] == rest[i - 1];
        } else {
          assert rest[j - 1] in rest;
        }
      }
      assert DedupFrom(texts, seen) == r;
    }
  }

  /** The `evidence` list of `synthesize_answer`. */
  function Evidence(hits: seq<Hit>): seq<string> {
    DedupFrom(Texts(hits), {})
  }

  /** Every text's key is either already seen or carried by some kept text. */
  lemma {:induction false} DedupCovers(texts: seq<string>, seen: set<string>)
    ensures forall t :: t in texts ==> Lower(t) in seen || Lower(t) in Keys(DedupFrom(texts, seen))
  {
    if texts != [] {
      var rest := texts[1..];
      if Lower(texts[0]) in seen {
        DedupCovers(rest, seen);
      } else {
        DedupCovers(rest, seen + {Lower(texts[0])});
        assert texts[0] in DedupFrom(texts, seen);
      }
      assert texts == [texts[0]] + rest;
    }
  }

  /** The first text with a given key is the one kept. */
  lemma {:induction false} DedupKeepsFirst(texts: seq<string>, seen: set<string>, i: nat)
    requires i < |texts| && Lower(texts[i]) !in seen
    requires forall j :: 0 <= j < i ==> Lower(texts[j]) != Lower(texts[i])
    ensures texts[i] in DedupFrom(texts, seen)
  {
    if i > 0 {
      var seen' := if Lower(texts[0]) in seen then seen else seen + {Lower(texts[0])};
      assert Lower(texts[0]) != Lower(texts[i]);
      assert texts[1..][i - 1] == texts[i];
      DedupKeepsFirst(texts[1..], seen', i - 1);
    }
  }

  /** Deduplication follows the order of the texts: deduplicating a concatenation
      deduplicates the second part against the keys of the first. */
  lemma {:induction false} DedupAppend(a: seq<string>, b: seq<string>, seen: set<string>)
    ensures DedupFrom(a + b, seen) == DedupFrom(a, seen) + DedupFrom(b, seen + Keys(a))
  {
    if a == [] {
      assert a + b == b;
      assert Keys(a) == {};
      assert seen + Keys(a) == seen;
    } else {
      assert (a + b)[1..] == a[1..] + b;
      var seen' := seen + {Lower(a[0])};
      assert Keys(a) == {Lower(a[0])} + Keys(a[1..]) by {
        assert a == [a[0]] + a[1..];
      }
      if Lower(a[0]) in seen {
        DedupAppend(a[1..], b, seen);
        assert seen + Keys(a[1..]) == seen + Keys(a);
      } else {
        DedupAppend(a[1..], b, seen');
        assert seen' + Keys(a[1..]) == seen + Keys(a);
      }
    }
  }

  /** Two hits whose texts differ only in case leave only the first as evidence. */
  lemma CaseVariantsCollapse(a: Hit, b: Hit)
    requires Lower(a.text) == Lower(b.text)
    ensures Evidence([a, b]) == [a.text]
  {
    var texts := Texts([a, b]);
    assert texts == [a.text, b.text];
    assert texts[1..] == [b.text] && texts[1..][1..] == [];
    assert DedupFrom(texts[1..], {Lower(a.text)}) == [];
    assert DedupFrom(texts, {}) == [a.text] + DedupFrom(texts[1..], {} + {Lower(a.text)});
  }

  // ---------------------------------------------------------------------------
  // The list branch
  // ---------------------------------------------------------------------------

  /** `[t for t in evidence if len(t) < 200]`. */
  function ShortItems(evidence: seq<string>): (r: seq<string>)
    ensures |r| <= |evidence|
  {
    if evidence == [] then []
    else if |evidence[0]| < MaxItemLength then [evidence[0]] + ShortItems(evidence[1..])
    else ShortItems(evidence[1..])
  }

  /** Every item is an evidence text shorter than 200 characters. */
  lemma {:induction false} ShortItemsSound(evidence: seq<string>)
    ensures forall x :: x in ShortItems(evidence) ==> x in evidence && |x| < MaxItemLength
  {
    if evidence != [] {
      ShortItemsSound(evidence[1..]);
      forall x | x in ShortItems(evidence) ensures x in evidence && |x| < MaxItemLength {
        if x != evidence[0] {
          assert x in evidence[1..];
        }
      }
    }
  }

  /** Every short evidence text becomes an item. */
  lemma {:induction false} ShortItemsComplete(evidence: seq<string>)
    ensures forall x :: x in evidence && |x| < MaxItemLength ==> x in ShortItems(evidence)
  {
    if evidence != [] {
      ShortItemsComplete(evidence[1..]);
      assert evidence == [evidence[0]] + evidence[1..];
    }
  }

  /** Items keep evidence order: the items of a concatenation are the items of the first
      part followed by those of the second. */
  lemma {:induction false} ShortItemsAppend(a: seq<string>, b: seq<string>)
    ensures ShortItems(a + b) == ShortItems(a) + ShortItems(b)
  {
    if a == [] {
      assert a + b == b;
    } else {
      assert (a + b)[0] == a[0] && (a + b)[1..] == a[1..] + b;
      ShortItemsAppend(a[1..], b);
    }
  }

  /** When all evidence is short, every evidence text is listed, in order. */
  lemma {:induction false} ShortItemsAll(evidence: seq<string>)
    requires forall x :: x in evidence ==> |x| < MaxItemLength
    ensures ShortItems(evidence) == evidence
  {
    if evidence != [] {
      assert evidence[0] in evidence;
      ShortItemsAll(evidence[1..]);
    }
  }

  function Digit(d: nat): char
    requires d < 10
  {
    ('0' as int + d) as char
  }

  /** Python's `str(n)` for a natural number. */
  function DecimalString(n: nat): (r: string)
    ensures r != [] && forall i :: 0 <= i < |r| ==> '0' <= r[i] <= '9'
    ensures |r| == 1 || r[0] != '0'
  {
    if n < 10 then [Digit(n)] else DecimalString(n / 10) + [Digit(n % 10)]
  }

  /** Reads a string of decimal digits back as a number. */
  function DecimalValue(s: string): nat
    requires forall i :: 0 <= i < |s| ==> '0' <= s[i] <= '9'
  {
    if s == [] then 0 else DecimalValue(s[..|s| - 1]) * 10 + (s[|s| - 1] as int - '0' as int)
  }

  /** The item numbers are written so that they read back as the same number. */
  lemma {:induction false} DecimalRoundTrip(n: nat)
    ensures DecimalValue(DecimalString(n)) == n
  {
    if n >= 10 {
      DecimalRoundTrip(n / 10);
      var s := DecimalString(n);
      assert s[..|s| - 1] == DecimalString(n / 10);
    }
  }

  /** One line `f"{i}. {it}\n"`. */
  function Line(k: nat, item: string): string {
    DecimalString(k) + ". " + item + "\n"
  }

  /** The lines for the items, numbered from `start`. */
  function NumberedLines(items: seq<string>, start: nat): string {
    if items == [] then [] else Line(start, items[0]) + NumberedLines(items[1..], start + 1)
  }

  /** The numbered lines end with the line of the last item, numbered
      `start + |items| - 1`. */
  lemma {:induction false} NumberedLinesLast(items: seq<string>, start: nat)
    requires items != []
    ensures NumberedLines(items, start)
            == NumberedLines(items[..|items| - 1], start) + Line(start + |items| - 1, items[|items| - 1])
  {
    if |items| == 1 {
      assert items[..0] == [];
      assert items[1..] == [];
    } else {
      var n := |items|;
      var init := items[..n - 1];
      var tail := items[1..];
      NumberedLinesLast(tail, start + 1);
      assert tail[..|tail| - 1] == init[1..];
      assert tail[|tail| - 1] == items[n - 1];
      assert init[0] == items[0];
      AppendAssoc(Line(start, items[0]), NumberedLines(init[1..], start + 1), Line(start + n - 1, items[n - 1]));
    }
  }

  /** `" ".join(xs)`. */
  function JoinSpaced(xs: seq<string>): string {
    if xs == [] then []
    else if |xs| == 1 then xs[0]
    else xs[0] + " " + JoinSpaced(xs[1..])
  }

  /** Every joined text appears in the joined paragraph. */
  lemma {:induction false} JoinSpacedContains(xs: seq<string>, k: nat)
    requires k < |xs|
    ensures Contains(xs[k], JoinSpaced(xs))
  {
    if |xs| == 1 {
      assert OccursAt(xs[k], JoinSpaced(xs), 0);
    } else if k == 0 {
      assert JoinSpaced(xs) == xs[0] + (" " + JoinSpaced(xs[1..]));
      assert OccursAt(xs[0], JoinSpaced(xs), 0);
    } else {
      JoinSpacedContains(xs[1..], k - 1);
      var rest := JoinSpaced(xs[1..]);
      var i: nat :| OccursAt(xs[k], rest, i);
      var off := |xs[0]| + 1;
      assert JoinSpaced(xs) == (xs[0] + " ") + rest;
      assert JoinSpaced(xs)[off + i..off + i + |xs[k]|] == rest[i..i + |xs[k]|];
      assert OccursAt(xs[k], JoinSpaced(xs), off + i);
    }
  }

  /** Joining a concatenation puts one space between the two joined parts, so the
      texts keep their order. */
  lemma {:induction false} JoinSpacedAppend(xs: seq<string>, ys: seq<string>)
    requires xs != [] && ys != []
    ensures JoinSpaced(xs + ys) == JoinSpaced(xs) + " " + JoinSpaced(ys)
  {
    if |xs| == 1 {
      assert (xs + ys)[1..] == ys;
    } else {
      JoinSpacedAppend(xs[1..], ys);
      assert (xs + ys)[0] == xs[0] && (xs + ys)[1..] == xs[1..] + ys;
      var j, k := JoinSpaced(xs[1..]), JoinSpaced(ys);
      calc {
        JoinSpaced(xs + ys);
        xs[0] + " " + (j + " " + k);
        { AppendAssoc(xs[0] + " ", j + " ", k); AppendAssoc(xs[0] + " ", j, " "); }
        xs[0] + " " + j + " " + k;
      }
    }
  }

  /** Each text after the first, preceded by one space. */
  function SpacePrefixed(xs: seq<string>): string {
    if xs == [] then [] else " " + xs[0] + SpacePrefixed(xs[1..])
  }

  /** `" ".join(xs)` is the first text followed by every later text, in order, each
      preceded by exactly one space. */
  lemma {:induction false} JoinSpacedFirstThenRest(xs: seq<string>)
    requires xs != []
    ensures JoinSpaced(xs) == xs[0] + SpacePrefixed(xs[1..])
  {
    if |xs| > 1 {
      var ys := xs[1..];
      JoinSpacedFirstThenRest(ys);
      assert ys[1..] == xs[2..];
      AppendAssoc(xs[0] + " ", ys[0], SpacePrefixed(ys[1..]));
      AppendAssoc(xs[0], " " + ys[0], SpacePrefixed(ys[1..]));
      AppendAssoc(xs[0], " ", ys[0]);
    }
  }

  function Min(a: nat, b: nat): nat {
    if a < b then a else b
  }

  /** The narrative answer: `" ".join(evidence[:4])`. */
  function Narrative(evidence: seq<string>): string {
    JoinSpaced(evidence[..Min(NarrativeItems, |evidence|)])
  }

  /** The result of `synthesize_answer(query, hits)`: the answer text and the hits shown as
      sources. */
  function Synthesis(query: string, hits: seq<Hit>): (string, seq<Hit>) {
    if hits == [] then (NotFoundMessage, [])
    else
      var evidence := Evidence(hits);
      var items := ShortItems(evidence);
      if IsListQuery(query) && items != [] then (Strip(ListHeader + NumberedLines(items, 1)), hits)
      else (Narrative(evidence), hits)
  }

  // ---------------------------------------------------------------------------
  // Properties of the synthesiser
  // ---------------------------------------------------------------------------

  lemma TrimEndSpaces(s: string, w: string)
    requires s != [] && !IsSpace(s[|s| - 1]) && AllSpace(w)
    ensures TrimEnd(s + w) == s
  {
    var r := TrimEnd(s + w);
    assert (s + w)[|s| - 1] == s[|s| - 1];
    assert forall i :: |s| <= i < |s + w| ==> IsSpace((s + w)[i]);
  }

  lemma StripFinalNewline(head: string, text: string)
    requires head != [] && !IsSpace(head[0])
    requires |text| >= 2 && text[|text| - 1] == '\n' && !IsSpace(text[|text| - 2])
    ensures Strip(head + text) == head + text[..|text| - 1]
  {
    var s := head + text[..|text| - 1];
    assert head + text == s + "\n";
    assert s[|s| - 1] == text[|text| - 2];
    TrimEndSpaces(s, "\n");
    assert (s + "\n")[0] == head[0];
  }

  /** The numbered lines end with a newline that follows the last item's last character. */
  lemma NumberedLinesEnd(items: seq<string>, start: nat)
    requires items != []
    requires items[|items| - 1] != [] && !IsSpace(items[|items| - 1][|items[|items| - 1]| - 1])
    ensures var lines := NumberedLines(items, start);
            |lines| >= 2 && lines[|lines| - 1] == '\n' && !IsSpace(lines[|lines| - 2])
  {
    var n := |items|;
    var last := items[n - 1];
    NumberedLinesLast(items, start);
    var pre := NumberedLines(items[..n - 1], start);
    var numbered := DecimalString(start + n - 1) + ". " + last;
    assert Line(start + n - 1, last) == numbered + "\n";
    AppendAssoc(pre, numbered, "\n");
    var lines := pre + numbered + "\n";
    assert lines[|lines| - 2] == last[|last| - 1];
  }

  /** Stripping the header and the numbered lines removes only the final newline, when the
      last item ends in a non-space character. */
  lemma ListTextStripped(items: seq<string>)
    requires items != []
    requires items[|items| - 1] != [] && !IsSpace(items[|items| - 1][|items[|items| - 1]| - 1])
    ensures var lines := NumberedLines(items, 1);
            |lines| >= 2 && Strip(ListHeader + lines) == ListHeader + lines[..|lines| - 1]
  {
    NumberedLinesEnd(items, 1);
    HeaderStartsWithLetter();
    StripFinalNewline(ListHeader, NumberedLines(items, 1));
  }

  /** When the hits are chunks (non-empty, ending in a non-space character, as
      `normalize_text` leaves them), the list answer is the header followed by the
      numbered lines, of which only the final newline is stripped. */
  lemma ListAnswer(query: string, hits: seq<Hit>)
    requires hits != [] && IsListQuery(query)
    requires forall h :: h in hits ==> h.text != [] && !IsSpace(h.text[|h.text| - 1])
    requires ShortItems(Evidence(hits)) != []
    ensures var lines := NumberedLines(ShortItems(Evidence(hits)), 1);
            |lines| >= 2 && Synthesis(query, hits).0 == ListHeader + lines[..|lines| - 1]
  {
    var items := ShortItems(Evidence(hits));
    ItemEndsLikeHits(hits, items[|items| - 1]);
    ListTextStripped(items);
    ListBranch(query, hits);
  }

  lemma ItemComesFromHit(hits: seq<Hit>, item: string)
    requires item in ShortItems(Evidence(hits))
    ensures exists h :: h in hits && h.text == item
  {
    ShortItemsSound(Evidence(hits));
    DedupSound(Texts(hits), {});
    assert item in Texts(hits);
    var i :| 0 <= i < |hits| && Texts(hits)[i] == item;
    assert hits[i] in hits;
  }

  /** Items share whatever the hits' texts all have in common at their end. */
  lemma ItemEndsLikeHits(hits: seq<Hit>, item: string)
    requires forall h :: h in hits ==> h.text != [] && !IsSpace(h.text[|h.text| - 1])
    requires item in ShortItems(Evidence(hits))
    ensures item != [] && !IsSpace(item[|item| - 1])
  {
    ItemComesFromHit(hits, item);
  }

  lemma HeaderStartsWithLetter()
    ensures ListHeader != [] && !IsSpace(ListHeader[0])
  {
    assert ListHeader[0] == 'B';
  }

  lemma ListBranch(query: string, hits: seq<Hit>)
    requires hits != [] && IsListQuery(query) && ShortItems(Evidence(hits)) != []
    ensures Synthesis(query, hits).0 == Strip(ListHeader + NumberedLines(ShortItems(Evidence(hits)), 1))
  {
  }

  /** A list query whose evidence is all short lists every evidence text, numbered
      from 1 in evidence order. */
  lemma ListCoversAllShortEvidence(query: string, hits: seq<Hit>)
    requires hits != [] && IsListQuery(query)
    requires forall h :: h in hits ==> |h.text| < MaxItemLength
    ensures Synthesis(query, hits).0 == Strip(ListHeader + NumberedLines(Evidence(hits), 1))
  {
    var ev := Evidence(hits);
    DedupSound(Texts(hits), {});
    forall x | x in ev ensures |x| < MaxItemLength {
      assert x in Texts(hits);
    }
    ShortItemsAll(ev);
    assert hits[0].text in Texts(hits);
    DedupCovers(Texts(hits), {});
    assert ev != [];
  }

  /** Outside the list branch the answer contains each of the first four evidence texts. */
  lemma NarrativeContainsLeadingEvidence(query: string, hits: seq<Hit>, k: nat)
    requires hits != []
    requires !IsListQuery(query) || ShortItems(Evidence(hits)) == []
    requires k < Min(NarrativeItems, |Evidence(hits)|)
    ensures Contains(Evidence(hits)[k], Synthesis(query, hits).0)
  {
    var ev := Evidence(hits);
    JoinSpacedContains(ev[..Min(NarrativeItems, |ev|)], k);
  }

  /** Outside the list branch the answer is the first evidence text followed by the
      next evidence texts, up to four in all, in evidence order and each after one
      space. */
  lemma NarrativeAnswer(query: string, hits: seq<Hit>)
    requires hits != []
    requires !IsListQuery(query) || ShortItems(Evidence(hits)) == []
    ensures var ev := Evidence(hits);
      ev != [] && Synthesis(query, hits).0 == ev[0] + SpacePrefixed(ev[1..Min(NarrativeItems, |ev|)])
  {
    var ev := Evidence(hits);
    EvidenceNonEmpty(hits);
    var lead := ev[..Min(NarrativeItems, |ev|)];
    JoinSpacedFirstThenRest(lead);
    assert lead[1..] == ev[1..Min(NarrativeItems, |ev|)];
  }

  /** With at least one hit there is at least one evidence text, so the narrative
      answer is built from a non-empty list. */
  lemma EvidenceNonEmpty(hits: seq<Hit>)
    requires hits != []
    ensures Evidence(hits) != [] && Evidence(hits)[0] == hits[0].text
  {
    assert Texts(hits)[0] == hits[0].text;
  }

  // ---------------------------------------------------------------------------
  // synthesize_answer
  // ---------------------------------------------------------------------------

  /** The loop that builds `evidence` with the `seen` set of lower-cased texts. */
  method CollectEvidence(hits: seq<Hit>) returns (evidence: seq<string>)
    ensures evidence == Evidence(hits)
  {
    ghost var texts := Texts(hits);
    evidence := [];
    var seen: set<string> := {};
    for i := 0 to |hits|
      invariant DedupFrom(texts, {}) == evidence + DedupFrom(texts[i..], seen)
    {
      var t := hits[i].text;
      var key := Lower(t);
      assert texts[i..][0] == t && texts[i..][1..] == texts[i + 1..];
      if key !in seen {
        seen := seen + {key};
        evidence := evidence + [t];
      }
    }
    assert texts[|hits|..] == [];
  }

  /** The loop that keeps the evidence texts shorter than 200 characters. */
  method CollectItems(evidence: seq<string>) returns (items: seq<string>)
    ensures items == ShortItems(evidence)
  {
    items := [];
    for j := 0 to |evidence|
      invariant ShortItems(evidence) == items + ShortItems(evidence[j..])
    {
      assert evidence[j..][0] == evidence[j] && evidence[j..][1..] == evidence[j + 1..];
      if |evidence[j]| < MaxItemLength {
        items := items + [evidence[j]];
      }
    }
    assert evidence[|evidence|..] == [];
  }

  /** The lines from item `k` on are the line of item `k` followed by the
      lines of the items after it. */
  lemma NumberedLinesFrom(items: seq<string>, k: nat)
    requires k < |items|
    ensures NumberedLines(items[k..], k + 1) == Line(k + 1, items[k]) + NumberedLines(items[k + 1..], k + 2)
  {
    assert items[k..][0] == items[k] && items[k..][1..] == items[k + 1..];
  }

  /** The loop that appends one numbered line per item to the header. */
  method RenderList(items: seq<string>) returns (answer: string)
    ensures answer == ListHeader + NumberedLines(items, 1)
  {
    answer := ListHeader;
    for k := 0 to |items|
      invariant ListHeader + NumberedLines(items, 1) == answer + NumberedLines(items[k..], k + 1)
    {
      var line := DecimalString(k + 1) + ". " + items[k] + "\n";
      NumberedLinesFrom(items, k);
      AppendAssoc(answer, line, NumberedLines(items[k + 1..], k + 2));
      answer := answer + line;
    }
    assert items[|items|..] == [];
  }

  /** `synthesize_answer(query, hits)`. */
  method SynthesizeAnswer(query: string, hits: seq<Hit>) returns (answer: string, sources: seq<Hit>)
    ensures (answer, sources) == Synthesis(query, hits)
    ensures hits == [] ==> answer == NotFoundMessage && sources == []
    ensures hits != [] ==> sources == hits
  {
    if hits == [] {
      return NotFoundMessage, [];
    }
    var isList := IsListQuery(query);
    var evidence := CollectEvidence(hits);
    if isList {
      var items := CollectItems(evidence);
      if items != [] {
        answer := RenderList(items);
        return Strip(answer), hits;
      }
    }
    answer := Narrative(evidence);
    sources := hits;
  }
}
