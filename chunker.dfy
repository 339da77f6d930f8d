/**
  `chunk_text` of the ingestion script: split page text into pieces of at most
  `max_chars` characters. A chunk ends just before the last sentence terminator
  ". " that fits, and the ". " itself is dropped; when none fits, the chunk is cut
  hard at the budget and the two characters after it are dropped.
 */
module Chunker {
  import opened Wrappers
  import opened PyStr

  /** The default `max_chars` the ingestion pipeline chunks with. */
  const DefaultMaxChars: nat := 1200

  /** The two-character sentence terminator the chunker cuts at. */
  const SentenceBreak: string := ". "

  /**
    Where one step of the loop cuts `text`: the start of the last ". " that lies
    wholly inside the first `maxChars` characters, or `maxChars` when there is none.
   */
  function SplitPos(text: string, maxChars: nat): (sp: nat)
    requires maxChars <= |text|
    ensures sp <= maxChars
    ensures sp == maxChars <==> !Contains(text[..maxChars], SentenceBreak)
    ensures sp < maxChars ==> sp + |SentenceBreak| <= maxChars && OccursAt(text, SentenceBreak, sp)
    ensures sp < maxChars ==> forall j :: sp < j && j + |SentenceBreak| <= maxChars ==> !OccursAt(text, SentenceBreak, j)
  {
    var i := RFind(text[..maxChars], SentenceBreak);
    RFindFound(text[..maxChars], SentenceBreak);
    if i == -1 then maxChars
    else
      assert text[..maxChars][i..i + 2] == text[i..i + 2];
      assert forall j :: (i < j && j + 2 <= maxChars && OccursAt(text, SentenceBreak, j)
        ==> OccursAt(text[..maxChars], SentenceBreak, j));
      i
  }

  /**
    The text the loop continues with after a cut at `sp`: two characters past the
    cut, stripped, unless that would run off the end, in which case from the cut.
   */
  function Rest(text: string, sp: nat): (r: string)
    requires sp <= |text|
    ensures sp + 2 < |text| ==> |r| <= |text| - sp - 2
    ensures |r| <= |text| - sp
  {
    Strip(text[RestStart(text, sp)..])
  }

  /** Where the text after a cut at `sp` resumes, before stripping. */
  function RestStart(text: string, sp: nat): (q: nat)
    requires sp <= |text|
    ensures sp <= q <= |text|
  {
    if sp + 2 < |text| then sp + 2 else sp
  }

  /** The list `chunk_text(text, maxChars)` returns for a non-None `text`. */
  function Chunks(text: string, maxChars: nat): seq<string>
    requires maxChars > 0
    decreases |text|
  {
    if |text| > maxChars then
      var sp := SplitPos(text, maxChars);
      [Strip(text[..sp])] + Chunks(Rest(text, sp), maxChars)
    else if Strip(text) != [] then [Strip(text)]
    else []
  }

  /**
    `chunk_text(text, max_chars)`. `None` and the empty string give no chunks;
    otherwise the loop cuts chunks off the front while the remaining text is longer
    than the budget, and keeps the stripped remainder when it is not blank.
   */
  method ChunkText(text: Option<string>, maxChars: nat) returns (chunks: seq<string>)
    requires maxChars > 0
    ensures text == None || text == Some([]) ==> chunks == []
    ensures text.Some? ==> chunks == Chunks(text.value, maxChars)
    ensures forall i :: 0 <= i < |chunks| ==> |chunks[i]| <= maxChars && IsStripped(chunks[i])
  {
    if text == None || text.value == [] {
      return [];
    }
    var t := text.value;
    chunks := [];
    while |t| > maxChars
      invariant chunks + Chunks(t, maxChars) == Chunks(text.value, maxChars)
      decreases |t|
    {
      var splitPos := RFind(t[..maxChars], SentenceBreak);
      if splitPos == -1 {
        splitPos := maxChars;
      }
      var chunk := Strip(t[..splitPos]);
      // skip the two-character delimiter
      var rest := if splitPos + 2 < |t| then Strip(t[splitPos + 2..]) else Strip(t[splitPos..]);
      LoopStep(t, maxChars, splitPos, chunk, rest);
      ConcatAssoc(chunks, [chunk], Chunks(rest, maxChars));
      chunks := chunks + [chunk];
      t := rest;
    }
    assert Chunks(t, maxChars) == if Strip(t) != [] then [Strip(t)] else [];
    if Strip(t) != [] {
      chunks := chunks + [Strip(t)];
    }
    ChunksBounded(text.value, maxChars);
    ChunksStripped(text.value, maxChars);
  }

  /** One pass of the loop cuts off the first chunk of `Chunks` and continues with a shorter text. */
  lemma LoopStep(t: string, maxChars: nat, splitPos: int, chunk: string, rest: string)
    requires 0 < maxChars < |t|
    requires splitPos == if RFind(t[..maxChars], SentenceBreak) == -1 then maxChars else RFind(t[..maxChars], SentenceBreak)
    requires 0 <= splitPos <= |t| && chunk == Strip(t[..splitPos])
    requires rest == if splitPos + 2 < |t| then Strip(t[splitPos + 2..]) else Strip(t[splitPos..])
    ensures Chunks(t, maxChars) == [chunk] + Chunks(rest, maxChars)
    ensures |rest| < |t|
  {
    assert splitPos == SplitPos(t, maxChars);
    assert rest == Rest(t, splitPos);
  }

  lemma ConcatAssoc<T>(a: seq<T>, b: seq<T>, c: seq<T>)
    ensures (a + b) + c == a + (b + c)
  {
  }

  /** Every chunk fits the budget. */
  lemma {:induction false} ChunksBounded(text: string, maxChars: nat)
    requires maxChars > 0
    ensures forall i :: 0 <= i < |Chunks(text, maxChars)| ==> |Chunks(text, maxChars)[i]| <= maxChars
    decreases |text|
  {
    if |text| > maxChars {
      var sp := SplitPos(text, maxChars);
      var r := Rest(text, sp);
      ChunksBounded(r, maxChars);
      assert Chunks(text, maxChars) == [Strip(text[..sp])] + Chunks(r, maxChars);
    }
  }

  /** Every chunk is already stripped: no leading or trailing whitespace. */
  lemma {:induction false} ChunksStripped(text: string, maxChars: nat)
    requires maxChars > 0
    ensures forall i :: 0 <= i < |Chunks(text, maxChars)| ==> IsStripped(Chunks(text, maxChars)[i])
    decreases |text|
  {
    if |text| > maxChars {
      var sp := SplitPos(text, maxChars);
      var r := Rest(text, sp);
      ChunksStripped(r, maxChars);
      StripIsStripped(text[..sp]);
      assert Chunks(text, maxChars) == [Strip(text[..sp])] + Chunks(r, maxChars);
    } else {
      StripIsStripped(text);
    }
  }

  /**
    No chunks at all exactly when the text fits the budget and is blank; a blank
    text over budget still produces (empty) chunks.
   */
  lemma ChunksEmptyIff(text: string, maxChars: nat)
    requires maxChars > 0
    ensures Chunks(text, maxChars) == [] <==> |text| <= maxChars && AllSpace(text)
  {
    StripIsStripped(text);
  }

  /**
    A text within the budget gives its stripped self, or nothing when blank; so
    re-chunking a non-empty chunk gives back exactly that chunk.
   */
  lemma ChunksOfShortText(text: string, maxChars: nat)
    requires 0 < maxChars && |text| <= maxChars
    ensures Chunks(text, maxChars) == if AllSpace(text) then [] else [Strip(text)]
    ensures text != [] && IsStripped(text) ==> Chunks(text, maxChars) == [text]
  {
    StripIsStripped(text);
    if text != [] && IsStripped(text) {
      StripPadded([], text, []);
      assert [] + text + [] == text;
    }
  }

  /** Chunking any chunk again, with the same budget, returns that chunk alone. */
  lemma RechunkIsIdentity(text: string, maxChars: nat, i: int)
    requires maxChars > 0 && 0 <= i < |Chunks(text, maxChars)|
    requires Chunks(text, maxChars)[i] != []
    ensures Chunks(Chunks(text, maxChars)[i], maxChars) == [Chunks(text, maxChars)[i]]
  {
    ChunksBounded(text, maxChars);
    ChunksStripped(text, maxChars);
    ChunksOfShortText(Chunks(text, maxChars)[i], maxChars);
  }

  /**
    A sentence cut: when the text is over budget and the last ". " inside the first
    `maxChars` characters starts at `i`, the first chunk is the text before the
    period, stripped, and chunking resumes after the space.
   */
  lemma SentenceCut(text: string, maxChars: nat, i: nat)
    requires 0 < maxChars < |text|
    requires i + 2 <= maxChars && OccursAt(text, SentenceBreak, i)
    requires forall j :: i < j && j + 2 <= maxChars ==> !OccursAt(text, SentenceBreak, j)
    ensures Chunks(text, maxChars) == [Strip(text[..i])] + Chunks(Strip(text[i + 2..]), maxChars)
  {
    LastBreakIsSplitPos(text, maxChars, i);
    assert RestStart(text, i) == i + 2;
  }

  /** `SplitPos` finds the last ". " that fits the budget. */
  lemma LastBreakIsSplitPos(text: string, maxChars: nat, i: nat)
    requires 0 < maxChars < |text|
    requires i + 2 <= maxChars && OccursAt(text, SentenceBreak, i)
    requires forall j :: i < j && j + 2 <= maxChars ==> !OccursAt(text, SentenceBreak, j)
    ensures SplitPos(text, maxChars) == i
  {
    assert OccursAt(text[..maxChars], SentenceBreak, i) by {
      assert text[..maxChars][i..i + 2] == text[i..i + 2];
    }
  }

  /**
    A hard cut: with no ". " inside the first `maxChars` characters, the first chunk
    is exactly those characters, stripped, and the two characters after them are
    dropped (unless the text ends within them).
   */
  lemma HardCut(text: string, maxChars: nat)
    requires 0 < maxChars < |text|
    requires forall j :: 0 <= j && j + 2 <= maxChars ==> !OccursAt(text, SentenceBreak, j)
    ensures Chunks(text, maxChars) == [Strip(text[..maxChars])] +
      Chunks(if maxChars + 2 < |text| then Strip(text[maxChars + 2..]) else Strip(text[maxChars..]), maxChars)
  {
    if Contains(text[..maxChars], SentenceBreak) {
      var j :| 0 <= j <= maxChars - 2 && OccursAt(text[..maxChars], SentenceBreak, j);
      assert text[..maxChars][j..j + 2] == text[j..j + 2];
      assert OccursAt(text, SentenceBreak, j);
    }
  }

  /** No ". " starts inside `text[lo..hi]` when no period lies there. */
  lemma NoBreakWithoutPeriod(text: string, lo: nat, hi: nat)
    requires lo <= hi <= |text| && '.' !in text[lo..hi]
    ensures forall j :: lo <= j && j + 2 <= hi ==> !OccursAt(text, SentenceBreak, j)
  {
    forall j | lo <= j && j + 2 <= hi
      ensures !OccursAt(text, SentenceBreak, j)
    {
      assert text[j] == text[lo..hi][j - lo];
      assert SentenceBreak[0] == '.';
    }
  }

  /** A short text that starts and ends with a lower-case letter is its own single chunk. */
  lemma ShortStrippedText(x: string, maxChars: nat)
    requires 0 < |x| <= maxChars && 'a' <= x[0] <= 'z' && 'a' <= x[|x| - 1] <= 'z'
    ensures Strip(x) == x && Chunks(x, maxChars) == [x]
  {
    assert IsStripped(x);
    StripPadded([], x, []);
    assert [] + x + [] == x;
    ChunksOfShortText(x, maxChars);
  }

  /** The hard cut loses text: "de" belongs to no chunk of "abcdefg" with budget 3. */
  lemma HardCutDropsTwo(t: string)
    requires t == "abcdefg"
    ensures Chunks(t, 3) == ["abc", "fg"]
  {
    HardCutOfExample(t);
    ShortStrippedText("abc", 3);
    ShortStrippedText("fg", 3);
  }

  lemma HardCutOfExample(t: string)
    requires t == "abcdefg"
    ensures Chunks(t, 3) == [Strip("abc")] + Chunks(Strip("fg"), 3)
  {
    assert t[0..3] == "abc";
    NoBreakWithoutPeriod(t, 0, 3);
    HardCut(t, 3);
    assert t[..3] == "abc" && t[5..] == "fg";
  }

  /** A first window of blanks gives an empty chunk even when the text itself is not blank. */
  lemma BlankWindowGivesEmptyChunk(t: string)
    requires t == "   abc"
    ensures Chunks(t, 2) == ["", "bc"]
  {
    HardCutOfBlankWindow(t);
    StripIsStripped("  ");
    ShortStrippedText("bc", 2);
  }

  lemma HardCutOfBlankWindow(t: string)
    requires t == "   abc"
    ensures Chunks(t, 2) == [Strip("  ")] + Chunks(Strip("bc"), 2)
  {
    assert t[0..2] == "  ";
    NoBreakWithoutPeriod(t, 0, 2);
    HardCut(t, 2);
    assert t[..2] == "  " && t[4..] == "bc";
  }

  /**
    When a chunk is empty: a cut emits an empty chunk exactly when the text before
    the cut is blank. The loop strips the text it continues with, so after the
    first pass this means the cut is at position 0.
   */
  lemma EmptyCutChunk(text: string, maxChars: nat)
    requires 0 < maxChars < |text|
    ensures Chunks(text, maxChars)[0] == [] <==> AllSpace(text[..SplitPos(text, maxChars)])
    ensures IsStripped(text) ==> (Chunks(text, maxChars)[0] == [] <==> SplitPos(text, maxChars) == 0)
  {
    var sp := SplitPos(text, maxChars);
    StripIsStripped(text[..sp]);
    if IsStripped(text) && sp > 0 {
      assert text[..sp][0] == text[0];
      assert !AllSpace(text[..sp]);
    }
  }

  /** An earlier chunk can be empty: text opening with ". " gives an empty first chunk. */
  lemma EarlierChunkCanBeEmpty(t: string)
    requires t == ". xy"
    ensures Chunks(t, 3) == ["", "xy"]
  {
    SentenceCutOfExample(t);
    StripIsStripped("");
    ShortStrippedText("xy", 3);
  }

  lemma SentenceCutOfExample(t: string)
    requires t == ". xy"
    ensures Chunks(t, 3) == [Strip("")] + Chunks(Strip("xy"), 3)
  {
    assert OccursAt(t, SentenceBreak, 0);
    assert t[1..3] == " x";
    NoBreakWithoutPeriod(t, 1, 3);
    SentenceCut(t, 3, 0);
    assert t[..0] == "" && t[2..] == "xy";
  }

  /** A blank text over budget still yields one (empty) chunk. */
  lemma BlankTextOverBudget(t: string)
    requires t == "    "
    ensures Chunks(t, 2) == [""]
  {
    assert t[0..2] == "  ";
    NoBreakWithoutPeriod(t, 0, 2);
    HardCut(t, 2);
    assert AllSpace(t[..2]) && AllSpace(t[2..]);
    StripIsStripped(t[..2]);
    StripIsStripped(t[2..]);
    ChunksOfShortText("", 2);
  }

  /**
    The budget must be positive: with `maxChars == 0` a stripped one- or two-character
    text is left unchanged by a loop step, so the loop never ends.
   */
  lemma ZeroBudgetMakesNoProgress(text: string)
    requires 1 <= |text| <= 2 && IsStripped(text)
    ensures Rest(text, SplitPos(text, 0)) == text
  {
    assert SplitPos(text, 0) == 0;
    assert text[0..] == text;
    StripPadded([], text, []);
    assert [] + text + [] == text;
  }

  /**
    `cs` occur in `text` as substrings, in order and without overlapping: each one
    is found at or after the end of the previous one.
   */
  ghost predicate InOrder(cs: seq<string>, text: string)
    decreases |cs|
  {
    cs == [] || exists k :: OccursAt(text, cs[0], k) && InOrder(cs[1..], text[k + |cs[0]|..])
  }

  /** Pieces in order within `u` stay in order within any text that contains `u`. */
  lemma {:induction false} InOrderWiden(cs: seq<string>, u: string, v: string, o: nat)
    requires InOrder(cs, u)
    requires o + |u| <= |v| && v[o..o + |u|] == u
    ensures InOrder(cs, v)
    decreases |cs|
  {
    if cs != [] {
      var c := cs[0];
      var k :| OccursAt(u, c, k) && InOrder(cs[1..], u[k + |c|..]);
      WidenOccurrence(u, v, o, c, k);
      InOrderWiden(cs[1..], u[k + |c|..], v[o + k + |c|..], 0);
    }
  }

  /** An occurrence inside `u` is an occurrence inside any `v` holding `u` at `o`, and what follows it carries over. */
  lemma WidenOccurrence(u: string, v: string, o: nat, c: string, k: nat)
    requires OccursAt(u, c, k)
    requires o + |u| <= |v| && v[o..o + |u|] == u
    ensures OccursAt(v, c, o + k)
    ensures |u| - k - |c| <= |v| - (o + k + |c|)
    ensures v[o + k + |c|..][0..|u| - k - |c|] == u[k + |c|..]
  {
    SliceOfSlice(v, o, o + |u|, k, k + |c|);
    SliceOfSlice(v, o, o + |u|, k + |c|, |u|);
    SliceOfSlice(v, o + k + |c|, |v|, 0, |u| - k - |c|);
  }

  /** Putting a piece found at `a` in front of pieces in order after it. */
  lemma InOrderCons(c: string, cs: seq<string>, text: string, a: nat)
    requires OccursAt(text, c, a) && InOrder(cs, text[a + |c|..])
    ensures InOrder([c] + cs, text)
  {
    var cs' := [c] + cs;
    assert cs'[0] == c && cs'[1..] == cs;
    assert OccursAt(text, cs'[0], a) && InOrder(cs'[1..], text[a + |cs'[0]|..]);
  }

  /**
    One piece at `a`, then a text `r` found at or after its end whose own pieces
    are in order: all pieces are in order in the whole text.
   */
  lemma InOrderStep(text: string, c: string, a: nat, r: string, p: nat, cs: seq<string>)
    requires OccursAt(text, c, a) && OccursAt(text, r, p) && a + |c| <= p
    requires InOrder(cs, r)
    ensures InOrder([c] + cs, text)
  {
    var v := text[a + |c|..];
    var o := p - a - |c|;
    SliceOfSlice(text, a + |c|, |text|, o, o + |r|);
    assert text[a + |c|..|text|] == v;
    InOrderWiden(cs, r, v, o);
    InOrderCons(c, cs, text, a);
  }

  /** The stripped part of `text[lo..]` is the infix of `text` at `lo` plus its leading whitespace. */
  lemma StripSuffixInfix(text: string, lo: nat)
    requires lo <= |text|
    ensures lo + LeadingSpaces(text[lo..]) + |Strip(text[lo..])| <= |text|
    ensures OccursAt(text, Strip(text[lo..]), lo + LeadingSpaces(text[lo..]))
  {
    var u := text[lo..];
    StripIsInfix(u);
    var b := LeadingSpaces(u);
    assert u[b..b + |Strip(u)|] == text[lo + b..lo + b + |Strip(u)|];
  }

  /** The stripped part of `text[..hi]` lies in `text` before `hi`. */
  lemma StripPrefixInfix(text: string, hi: nat)
    requires hi <= |text|
    ensures LeadingSpaces(text[..hi]) + |Strip(text[..hi])| <= hi
    ensures OccursAt(text, Strip(text[..hi]), LeadingSpaces(text[..hi]))
  {
    var u := text[..hi];
    StripIsInfix(u);
    var a := LeadingSpaces(u);
    assert u[a..a + |Strip(u)|] == text[a..a + |Strip(u)|];
  }

  /** Each chunk is a piece of the input; the chunks follow input order and never overlap. */
  lemma {:induction false} ChunksInOrder(text: string, maxChars: nat)
    requires maxChars > 0
    ensures InOrder(Chunks(text, maxChars), text)
    decreases |text|
  {
    if |text| > maxChars {
      var sp := SplitPos(text, maxChars);
      ChunksInOrder(Rest(text, sp), maxChars);
      CutInOrder(text, maxChars);
    } else if Strip(text) != [] {
      StripSuffixInfix(text, 0);
      assert text[0..] == text;
      InOrderCons(Strip(text), [], text, LeadingSpaces(text));
    }
  }

  /** If the chunks of the rest are in order within the rest, the chunks of the whole are in order within it. */
  lemma CutInOrder(text: string, maxChars: nat)
    requires 0 < maxChars < |text|
    requires InOrder(Chunks(Rest(text, SplitPos(text, maxChars)), maxChars), Rest(text, SplitPos(text, maxChars)))
    ensures InOrder(Chunks(text, maxChars), text)
  {
    var sp := SplitPos(text, maxChars);
    var q := RestStart(text, sp);
    var r := Rest(text, sp);
    var c, a := Strip(text[..sp]), LeadingSpaces(text[..sp]);
    var p := q + LeadingSpaces(text[q..]);
    assert OccursAt(text, c, a) && a + |c| <= sp by {
      StripPrefixInfix(text, sp);
    }
    assert OccursAt(text, r, p) && sp <= p by {
      StripSuffixInfix(text, q);
    }
    InOrderStep(text, c, a, r, p, Chunks(r, maxChars));
  }
}
