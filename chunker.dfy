/** The chunking step of `add_document` (utils.py): split the document at every run of
    whitespace that follows `.`, `!` or `?`, keep the pieces whose stripped length is over
    40 characters, and normalise them. */
module Chunker {
  import opened Text

  /** The smallest stripped length a piece must exceed to become a chunk. */
  const MinChunkLength: nat := 40

  predicate IsTerminal(c: char) {
    c == '.' || c == '!' || c == '?'
  }

  /** The split pattern `(?<=[.!?])\s+` can start matching at position `j` of `s`. */
  predicate BoundaryAt(s: string, j: int) {
    0 < j < |s| && IsTerminal(s[j - 1]) && IsSpace(s[j])
  }

  predicate NoBoundary(s: string) {
    forall j | 0 < j < |s| :: !BoundaryAt(s, j)
  }

  /** The pieces glued back together with the whitespace runs that separated them. */
  function Interleave(pieces: seq<string>, gaps: seq<string>): string
    requires |pieces| == |gaps| + 1
  {
    if |gaps| == 0 then pieces[0]
    else pieces[0] + gaps[0] + Interleave(pieces[1..], gaps[1..])
  }

  /** The separators are whole runs of whitespace. */
  predicate ValidGaps(gaps: seq<string>) {
    forall k :: 0 <= k < |gaps| ==> gaps[k] != [] && AllSpace(gaps[k])
  }

  /** `re.split(r"(?<=[.!?])\s+", cur + t)`, where `cur` is the part of the current piece
      already scanned. */
  function SplitFrom(t: string, cur: string): (r: seq<string>)
    requires NoBoundary(cur)
    ensures |r| >= 1 && cur <= r[0]
    decreases |t|
  {
    if t == [] then [cur]
    else if cur != [] && IsTerminal(cur[|cur| - 1]) && IsSpace(t[0]) then
      [cur] + SplitFrom(TrimStart(t), [])
    else
      ExtendNoBoundary(cur, t[0]);
      SplitFrom(t[1..], cur + [t[0]])
  }

  lemma ExtendNoBoundary(cur: string, c: char)
    requires NoBoundary(cur)
    requires cur == [] || !IsTerminal(cur[|cur| - 1]) || !IsSpace(c)
    ensures NoBoundary(cur + [c])
  {
    forall j | 0 < j < |cur| + 1 ensures !BoundaryAt(cur + [c], j) {
      if j < |cur| {
        assert !BoundaryAt(cur, j);
      }
    }
  }

  /** Away from a boundary the scan moves one character into the current piece. */
  lemma SplitInsidePiece(cur: string, t: string)
    requires NoBoundary(cur) && t != []
    requires !(cur != [] && IsTerminal(cur[|cur| - 1]) && IsSpace(t[0]))
    ensures NoBoundary(cur + [t[0]])
    ensures SplitFrom(t, cur) == SplitFrom(t[1..], cur + [t[0]])
  {
    ExtendNoBoundary(cur, t[0]);
  }

  /** At a boundary the current piece is closed and the whitespace run skipped. */
  lemma SplitAtBoundary(cur: string, t: string)
    requires NoBoundary(cur) && cur != [] && IsTerminal(cur[|cur| - 1])
    requires t != [] && IsSpace(t[0])
    ensures SplitFrom(t, cur) == [cur] + SplitFrom(TrimStart(t), [])
  {
  }

  lemma InterleaveCons(piece: string, pieces: seq<string>, gap: string, gaps: seq<string>)
    requires |pieces| == |gaps| + 1
    ensures Interleave([piece] + pieces, [gap] + gaps) == piece + gap + Interleave(pieces, gaps)
  {
    assert ([piece] + pieces)[1..] == pieces;
    assert ([gap] + gaps)[1..] == gaps;
  }

  /** The shape of the split pieces: no piece contains a boundary, every piece but the
      last ends with `.`, `!` or `?`, and every piece after the first starts past the
      whole whitespace run. */
  ghost predicate WellSplit(r: seq<string>) {
    && (forall k :: 0 <= k < |r| ==> NoBoundary(r[k]))
    && (forall k :: 0 <= k < |r| - 1 ==> r[k] != [] && IsTerminal(r[k][|r[k]| - 1]))
    && (forall k :: 0 < k < |r| ==> r[k] == [] || !IsSpace(r[k][0]))
  }

  lemma {:induction false} SplitFromWellSplit(t: string, cur: string)
    requires NoBoundary(cur)
    ensures WellSplit(SplitFrom(t, cur))
    ensures cur == [] && t != [] ==> SplitFrom(t, cur)[0] != [] && SplitFrom(t, cur)[0][0] == t[0]
    decreases |t|
  {
    if t == [] {
    } else if cur != [] && IsTerminal(cur[|cur| - 1]) && IsSpace(t[0]) {
      SplitFromWellSplit(TrimStart(t), []);
      var tail := SplitFrom(TrimStart(t), []);
      assert SplitFrom(t, cur) == [cur] + tail;
    } else {
      ExtendNoBoundary(cur, t[0]);
      SplitFromWellSplit(t[1..], cur + [t[0]]);
    }
  }

  /** The split pieces of `cur + t`, and the whitespace runs between them, give back
      `cur + t`. */
  ghost predicate Rejoins(r: seq<string>, whole: string) {
    exists gaps :: |gaps| == |r| - 1 && ValidGaps(gaps) && Interleave(r, gaps) == whole
  }

  lemma {:induction false} SplitFromRejoins(t: string, cur: string)
    requires NoBoundary(cur)
    ensures Rejoins(SplitFrom(t, cur), cur + t)
    decreases |t|
  {
    if t == [] {
      assert Interleave([cur], []) == cur + t;
    } else if cur != [] && IsTerminal(cur[|cur| - 1]) && IsSpace(t[0]) {
      var rest := TrimStart(t);
      var tail := SplitFrom(rest, []);
      assert Rejoins(tail, rest) by {
        SplitFromRejoins(rest, []);
        assert [] + rest == rest;
      }
      assert Rejoins([cur] + tail, cur + t) by {
        RejoinAtBoundary(cur, t, rest, tail);
      }
      SplitAtBoundary(cur, t);
    } else {
      SplitInsidePiece(cur, t);
      var next := cur + [t[0]];
      assert Rejoins(SplitFrom(t[1..], next), cur + t) by {
        SplitFromRejoins(t[1..], next);
        HeadThenTail(cur, t);
      }
    }
  }

  lemma RejoinAtBoundary(cur: string, t: string, rest: string, tail: seq<string>)
    requires |rest| < |t| && rest == t[|t| - |rest|..] && AllSpace(t[..|t| - |rest|])
    requires Rejoins(tail, rest)
    ensures Rejoins([cur] + tail, cur + t)
  {
    var gap := t[..|t| - |rest|];
    var gaps' :| |gaps'| == |tail| - 1 && ValidGaps(gaps') && Interleave(tail, gaps') == rest;
    InterleaveCons(cur, tail, gap, gaps');
    assert t == gap + rest;
    assert ValidGaps([gap] + gaps');
  }

  /** The pieces `re.split(r"(?<=[.!?])\s+", text)` returns, in text order: well split,
      and glued back together by whitespace runs they give back `text`. */
  function SplitSentences(text: string): (r: seq<string>)
    ensures |r| >= 1
  {
    SplitFrom(text, [])
  }

  lemma SplitSentencesShape(text: string)
    ensures WellSplit(SplitSentences(text))
    ensures Rejoins(SplitSentences(text), text)
  {
    SplitFromWellSplit(text, []);
    SplitFromRejoins(text, []);
    assert [] + text == text;
  }

  /** The filter `len(s.strip()) > 40` of the chunking comprehension. */
  predicate IsLong(piece: string) {
    |Strip(piece)| > MinChunkLength
  }

  lemma LongNormalizesNonEmpty(piece: string)
    requires IsLong(piece)
    ensures Normalize(piece) != []
  {
    StripKeepsNonSpace(piece);
    NormalizeShape(piece);
  }

  /** `[normalize_text(s) for s in pieces if len(s.strip()) > 40]`. */
  function KeepLong(pieces: seq<string>): (r: seq<string>)
    ensures |r| <= |pieces|
  {
    if pieces == [] then []
    else if IsLong(pieces[0]) then [Normalize(pieces[0])] + KeepLong(pieces[1..])
    else KeepLong(pieces[1..])
  }

  /** A chunk comes from the first piece or from the rest. */
  lemma KeepLongHead(pieces: seq<string>, c: string)
    requires pieces != [] && c in KeepLong(pieces)
    ensures (IsLong(pieces[0]) && c == Normalize(pieces[0])) || c in KeepLong(pieces[1..])
  {
  }

  /** Every chunk is in normal form and non-empty. */
  lemma {:induction false} KeepLongShape(pieces: seq<string>)
    ensures forall c :: c in KeepLong(pieces) ==> IsNormal(c) && c != []
  {
    if pieces != [] {
      KeepLongShape(pieces[1..]);
      forall c | c in KeepLong(pieces) ensures IsNormal(c) && c != [] {
        KeepLongHead(pieces, c);
        if IsLong(pieces[0]) && c == Normalize(pieces[0]) {
          LongNormalizesNonEmpty(pieces[0]);
          NormalizeShape(pieces[0]);
        }
      }
    }
  }

  /** Every long piece becomes a chunk. */
  lemma {:induction false} KeepLongKeepsLong(pieces: seq<string>)
    ensures forall p :: p in pieces && IsLong(p) ==> Normalize(p) in KeepLong(pieces)
  {
    if pieces != [] {
      KeepLongKeepsLong(pieces[1..]);
      forall p | p in pieces && IsLong(p) ensures Normalize(p) in KeepLong(pieces) {
        if p != pieces[0] {
          assert p in pieces[1..];
        }
      }
    }
  }

  /** Every chunk is the normalisation of a long piece. */
  lemma {:induction false} KeepLongOnlyLong(pieces: seq<string>)
    ensures forall c :: c in KeepLong(pieces) ==> exists p :: p in pieces && IsLong(p) && c == Normalize(p)
  {
    if pieces != [] {
      KeepLongOnlyLong(pieces[1..]);
      forall c | c in KeepLong(pieces) ensures exists p :: p in pieces && IsLong(p) && c == Normalize(p) {
        KeepLongHead(pieces, c);
        if IsLong(pieces[0]) && c == Normalize(pieces[0]) {
          assert pieces[0] in pieces;
        } else {
          var p :| p in pieces[1..] && IsLong(p) && c == Normalize(p);
          assert p in pieces;
        }
      }
    }
  }

  /** The chunks `add_document` computes from a document's text. */
  function Chunks(text: string): seq<string> {
    KeepLong(SplitSentences(text))
  }

  /** Every chunk of a document is in normal form and non-empty. */
  lemma ChunksShape(text: string)
    ensures forall c :: c in Chunks(text) ==> IsNormal(c) && c != []
  {
    KeepLongShape(SplitSentences(text));
  }

  /** The chunk filter keeps the order of the pieces: filtering a concatenation is
      concatenating the filtered parts. */
  lemma {:induction false} KeepLongAppend(a: seq<string>, b: seq<string>)
    ensures KeepLong(a + b) == KeepLong(a) + KeepLong(b)
  {
    if a != [] {
      assert (a + b)[1..] == a[1..] + b;
      KeepLongAppend(a[1..], b);
    } else {
      assert a + b == b;
    }
  }

  /** A piece whose stripped length is 40 or less contributes no chunk. */
  lemma ShortPieceDropped(a: seq<string>, piece: string, b: seq<string>)
    requires !IsLong(piece)
    ensures KeepLong(a + [piece] + b) == KeepLong(a) + KeepLong(b)
  {
    KeepLongAppend(a + [piece], b);
    KeepLongAppend(a, [piece]);
  }

  // ---------------------------------------------------------------------------
  // Splitting texts of known shape
  // ---------------------------------------------------------------------------


  /** Scanning a stretch with no boundary in it only extends the current piece. */
  lemma {:induction false} ScanWithoutBoundary(x: string, rest: string, cur: string)
    requires NoBoundary(cur) && NoBoundary(cur + x)
    ensures SplitFrom(x + rest, cur) == SplitFrom(rest, cur + x)
    decreases |x|
  {
    if x == [] {
      assert x + rest == rest && cur + x == cur;
    } else {
      var t := x + rest;
      assert t[0] == x[0] && t[1..] == x[1..] + rest;
      if cur != [] {
        assert (cur + x)[|cur| - 1] == cur[|cur| - 1] && (cur + x)[|cur|] == x[0];
        assert !BoundaryAt(cur + x, |cur|);
      }
      ExtendNoBoundary(cur, x[0]);
      assert (cur + [x[0]]) + x[1..] == cur + x;
      ScanWithoutBoundary(x[1..], rest, cur + [x[0]]);
    }
  }

  /** A text with no boundary is a single piece. */
  lemma SplitWithoutBoundary(text: string)
    requires NoBoundary(text)
    ensures SplitSentences(text) == [text]
  {
    assert text + [] == text && [] + text == text;
    ScanWithoutBoundary(text, [], []);
  }

  /** Scanning a first sentence that has no boundary inside reaches the space after it. */
  lemma ScanFirstSentence(a: string, b: string)
    requires NoBoundary(a)
    ensures SplitFrom(a + " " + b, []) == SplitFrom(" " + b, a)
  {
    assert [] + a == a && a + " " + b == a + (" " + b);
    ScanWithoutBoundary(a, " " + b, []);
  }

  /** The space after a terminated sentence closes it. */
  lemma CloseFirstSentence(a: string, b: string)
    requires NoBoundary(a) && a != [] && IsTerminal(a[|a| - 1])
    requires b == [] || !IsSpace(b[0])
    ensures SplitFrom(" " + b, a) == [a] + SplitFrom(b, [])
  {
    SplitAtBoundary(a, " " + b);
    TrimStartSpacesThen(" ", b);
  }

  /** Two sentences separated by one space split into exactly those two pieces. */
  lemma SplitTwoSentences(a: string, b: string)
    requires NoBoundary(a) && a != [] && IsTerminal(a[|a| - 1])
    requires NoBoundary(b) && b != [] && !IsSpace(b[0])
    ensures SplitSentences(a + " " + b) == [a, b]
  {
    ScanFirstSentence(a, b);
    CloseFirstSentence(a, b);
    SplitWithoutBoundary(b);
  }


  const FirstExampleSentence: string := "This is a test sentence for the system."
  const SecondExampleSentence: string := "This one too, also long enough."

  lemma NoBoundaryWithoutInnerTerminal(s: string)
    requires forall j :: 0 <= j < |s| - 1 ==> !IsTerminal(s[j])
    ensures NoBoundary(s)
  {
  }

  lemma ExampleSentencesShape()
    ensures var a, b := FirstExampleSentence, SecondExampleSentence;
            && |a| == 39 && |b| == 31
            && NoBoundary(a) && IsTerminal(a[|a| - 1]) && !IsSpace(a[0])
            && NoBoundary(b) && !IsSpace(b[0]) && !IsSpace(b[|b| - 1])
  {
    var a, b := FirstExampleSentence, SecondExampleSentence;
    assert a[0] == 'T' && a[38] == '.' && b[0] == 'T' && b[30] == '.';
    assert forall j :: 0 <= j < |a| - 1 ==> !IsTerminal(a[j]);
    assert forall j :: 0 <= j < |b| - 1 ==> !IsTerminal(b[j]);
    NoBoundaryWithoutInnerTerminal(a);
    NoBoundaryWithoutInnerTerminal(b);
  }

  lemma {:induction false} NoLongPieces(pieces: seq<string>)
    requires forall p :: p in pieces ==> !IsLong(p)
    ensures KeepLong(pieces) == []
  {
    if pieces != [] {
      assert pieces[0] in pieces;
      NoLongPieces(pieces[1..]);
    }
  }

  /** Two sentences of at most 40 characters each, joined by one space, give no chunk. */
  lemma TwoShortSentencesGiveNoChunk(a: string, b: string)
    requires NoBoundary(a) && a != [] && IsTerminal(a[|a| - 1]) && !IsSpace(a[0])
    requires NoBoundary(b) && b != [] && !IsSpace(b[0]) && !IsSpace(b[|b| - 1])
    requires |a| <= MinChunkLength && |b| <= MinChunkLength
    ensures Chunks(a + " " + b) == []
  {
    SplitTwoSentences(a, b);
    assert !IsLong(a) by {
      StripUnchanged(a);
    }
    assert !IsLong(b) by {
      StripUnchanged(b);
    }
    NoLongPieces([a, b]);
  }

  /** The document "This is a test sentence for the system. This one too, also long
      enough." (sentences of 39 and 31 characters) yields no chunk. */
  lemma ShortSentencesGiveNoChunk()
    ensures Chunks(FirstExampleSentence + " " + SecondExampleSentence) == []
  {
    ExampleSentencesShape();
    TwoShortSentencesGiveNoChunk(FirstExampleSentence, SecondExampleSentence);
  }



  /** A word, a run of whitespace and the next word: the run becomes one space. */
  lemma CollapseRun(c: char, gap: string, rest: string)
    requires !IsSpace(c) && gap != [] && AllSpace(gap) && (rest == [] || !IsSpace(rest[0]))
    ensures Collapse([c] + gap + rest) == [c, ' '] + Collapse(rest)
  {
    AppendAssoc([c], gap, rest);
    CollapseWordThen(c, gap + rest);
    CollapseGapThen(gap, rest);
    ConsPair(c, ' ', Collapse(rest));
  }

  /** Two word characters are left as they are. */
  lemma CollapseTwoWords(y: char, z: char)
    requires !IsSpace(y) && !IsSpace(z)
    ensures Collapse([y, z]) == [y, z]
  {
    CollapseWordThen(z, []);
    assert [z] + [] == [z];
    CollapseWordThen(y, [z]);
    assert [y] + [z] == [y, z];
  }

  lemma CollapsePadded(x: char, gap: string, y: char, z: char)
    requires gap != [] && AllSpace(gap) && !IsSpace(x) && !IsSpace(y) && !IsSpace(z)
    ensures Collapse([x] + gap + [y, z]) == [x, ' ', y, z]
  {
    CollapseRun(x, gap, [y, z]);
    CollapseTwoWords(y, z);
    assert [x, ' '] + [y, z] == [x, ' ', y, z];
  }

  lemma PaddedPieceNormalizes(x: char, gap: string, y: char, z: char)
    requires gap != [] && AllSpace(gap) && !IsSpace(x) && !IsSpace(y) && !IsSpace(z)
    ensures Normalize([x] + gap + [y, z]) == [x, ' ', y, z]
  {
    CollapsePadded(x, gap, y, z);
    StripUnchanged([x, ' ', y, z]);
  }

  lemma PaddedPieceShape(x: char, gap: string, y: char, z: char)
    requires |gap| >= MinChunkLength && AllSpace(gap)
    requires !IsSpace(x) && !IsSpace(y) && !IsSpace(z) && !IsTerminal(x) && !IsTerminal(y)
    ensures NoBoundary([x] + gap + [y, z]) && IsLong([x] + gap + [y, z])
  {
    var text := [x] + gap + [y, z];
    forall j | 0 < j < |text| ensures !BoundaryAt(text, j) {
      if j <= |gap| {
        assert text[j - 1] == x || text[j - 1] == gap[j - 2];
      } else {
        assert text[j] == y || text[j] == z;
      }
    }
    StripUnchanged(text);
  }

  /** A document with no sentence boundary is one piece: one chunk when it is long. */
  lemma OnePieceChunks(text: string)
    requires NoBoundary(text) && IsLong(text)
    ensures Chunks(text) == [Normalize(text)]
  {
    SplitWithoutBoundary(text);
    assert KeepLong([text]) == [Normalize(text)] + KeepLong([]);
  }

  /** The length filter looks at the stripped piece, before inner whitespace runs are
      collapsed: a one-sentence document whose two words are separated by a run of
      at least 40 whitespace characters passes the filter and becomes a
      four-character chunk. */
  lemma LongPieceMayGiveShortChunk(x: char, gap: string, y: char, z: char)
    requires |gap| >= MinChunkLength && AllSpace(gap)
    requires !IsSpace(x) && !IsSpace(y) && !IsSpace(z) && !IsTerminal(x) && !IsTerminal(y)
    ensures Chunks([x] + gap + [y, z]) == [[x, ' ', y, z]]
  {
    PaddedPieceShape(x, gap, y, z);
    PaddedPieceNormalizes(x, gap, y, z);
    OnePieceChunks([x] + gap + [y, z]);
  }
}
