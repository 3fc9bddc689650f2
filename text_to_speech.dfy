/**
 * The text batcher of the speech-synthesis client: `split_batches` cuts a
 * text into pieces, one per synthesis request, aiming to keep each within
 * TextLengthLimit characters.
 *
 *   1. The text is cut after every `.`, `!` and `?` (Sentences.Segments).
 *   2. Each piece is stripped; empty ones are skipped, and one of at most
 *      TextLengthLimit characters is emitted as it is.
 *   3. A longer piece is split into words, which are batched greedily into
 *      an accumulator: a word is appended (with a space in front) unless the
 *      accumulator is non-empty and the accumulator plus the word, without
 *      the space, would exceed the limit, in which case the accumulator is
 *      emitted and restarted with the word. The accumulator is emitted once
 *      more at the end.
 *
 * Because the accumulator starts empty and the append always adds a space,
 * the first batch of a long piece starts with a space; because the length
 * test leaves the space out, a batch of two or more words can reach one
 * character over the limit; a single word longer than the limit is emitted
 * whole.
 */
module TextToSpeech {
  import opened PyText
  import opened Sentences

  /** The limit, in characters, that the batcher tests pieces and batches
      against. */
  const TextLengthLimit: nat := 240

  // ---------------------------------------------------------------------------
  // Specification functions
  // ---------------------------------------------------------------------------

  /** The batches still to be emitted when the accumulator holds `batch` and
      `words` remain (the inner loop of split_batches, as a function). There
      is at most one batch per word, plus the accumulator if it is not
      empty, and nothing is emitted only when there is nothing to emit. */
  function Greedy(batch: string, words: seq<string>): (r: seq<string>)
    ensures |r| <= |words| + (if batch == [] then 0 else 1)
    ensures r == [] <==> batch == [] && words == []
    decreases |words|
  {
    if words == [] then
      if batch != [] then [batch] else []
    else if |batch + words[0]| > TextLengthLimit && batch != [] then
      [batch] + Greedy(words[0], words[1..])
    else
      Greedy(batch + " " + words[0], words[1..])
  }

  /** The batches of one stripped piece. A piece within the limit is never
      split, and no piece gives more batches than it has characters. */
  function BatchSentence(sent: string): (r: seq<string>)
    ensures |sent| <= TextLengthLimit ==> |r| <= 1
    ensures |r| <= |sent|
  {
    if sent == [] then []
    else if |sent| <= TextLengthLimit then [sent]
    else Greedy([], Words(sent))
  }

  /** The batches of one piece of the sentence split, as it is before
      stripping (one turn of the outer loop). A blank piece is skipped. */
  function BatchPiece(piece: string): (r: seq<string>)
    ensures AllSpace(piece) ==> r == []
    ensures |r| <= |piece|
  {
    StripEmptyIff(piece);
    BatchSentence(Strip(piece))
  }

  /** `f` applied to each of `xs`, the results concatenated in order. */
  function FlatMap(f: string -> seq<string>, xs: seq<string>): seq<string> {
    if xs == [] then [] else FlatMap(f, xs[..|xs| - 1]) + f(xs[|xs| - 1])
  }

  /** The batches of a sequence of pieces, in order. */
  function BatchAll(pieces: seq<string>): seq<string> {
    FlatMap(BatchPiece, pieces)
  }

  /** Everything split_batches yields for `text`, in yield order. A text of
      whitespace only has no terminator, so it is one blank piece and
      yields nothing. */
  function Batches(text: string): (r: seq<string>)
    ensures AllSpace(text) ==> r == []
  {
    BlankTextBatches(text);
    BatchAll(Segments(text))
  }

  lemma BlankTextBatches(text: string)
    ensures AllSpace(text) ==> BatchAll(Segments(text)) == []
  {
    if AllSpace(text) {
      SegmentsOfPlain(text);
      FlatMapOne(BatchPiece, text);
    }
  }

  /** The words of each batch, read in order. */
  function WordsOf(chunks: seq<string>): seq<string> {
    if chunks == [] then [] else Words(chunks[0]) + WordsOf(chunks[1..])
  }

  /** What the batch at position `k` of a long piece starts with. */
  function LeadOf(k: nat, lead: string): string {
    if k == 0 then lead else []
  }

  /** A declarative description of greedy batching of `words`, whose first
      batch starts with `lead`: the batches hold the words in order, each is
      its words joined by single spaces (after `lead` for the first), every
      word after the first of a batch was appended because the batch so far
      plus that word fitted the limit, and every batch but the last was
      closed because the batch plus the next word did not. */
  ghost predicate IsGreedyBatching(chunks: seq<string>, words: seq<string>, lead: string) {
    && WordsOf(chunks) == words
    && (forall k :: 0 <= k < |chunks| ==>
          Words(chunks[k]) != [] && chunks[k] == LeadOf(k, lead) + Join(Words(chunks[k])))
    && (forall k :: 0 <= k < |chunks| ==> FitsWithin(chunks[k], LeadOf(k, lead)))
    && (forall k :: 0 <= k < |chunks| - 1 ==> ClosedBeforeNext(chunks, k))
  }

  /** Each word after the first of batch `c` fitted when it was appended:
      the batch so far (`lead` and the earlier words joined) plus the word
      is within the limit. */
  predicate FitsWithin(c: string, lead: string) {
    forall m :: 1 <= m < |Words(c)| ==>
      |lead + Join(Words(c)[..m])| + |Words(c)[m]| <= TextLengthLimit
  }

  /** Batch `k` was closed because the first word of batch `k + 1` did not
      fit after it. */
  predicate ClosedBeforeNext(chunks: seq<string>, k: nat)
    requires k + 1 < |chunks|
  {
    Words(chunks[k + 1]) != [] && |chunks[k]| + |Words(chunks[k + 1])[0]| > TextLengthLimit
  }

  /** Neither blank nor over the length bound. */
  predicate GoodBatch(c: string) {
    !AllSpace(c) && WithinBound(c)
  }

  /** Every batch is neither blank nor over the length bound. */
  predicate GoodBatches(chunks: seq<string>) {
    forall k :: 0 <= k < |chunks| ==> GoodBatch(chunks[k])
  }

  /** The length bound a batch keeps: within limit + 1, unless it is a
      single word. */
  predicate WithinBound(c: string) {
    |c| <= TextLengthLimit + 1 || |Words(c)| == 1
  }

  // ---------------------------------------------------------------------------
  // split_batches
  // ---------------------------------------------------------------------------

  method SplitBatches(text: string) returns (chunks: seq<string>)
    ensures chunks == Batches(text)
    ensures RemoveSpaces(Concat(chunks)) == RemoveSpaces(text)
    ensures GoodBatches(chunks)
  {
    var sentences := Segments(text);
    chunks := [];
    for i := 0 to |sentences|
      invariant chunks == BatchAll(sentences[..i])
    {
      FlatMapSnoc(BatchPiece, sentences, i);
      var batches := SplitPiece(sentences[i]);
      chunks := chunks + batches;
    }
    assert chunks == Batches(text) by { assert sentences[..|sentences|] == sentences; }
    assert RemoveSpaces(Concat(chunks)) == RemoveSpaces(text) by { BatchesKeepContent(text); }
    assert GoodBatches(chunks) by { BatchAllChunks(sentences); }
  }

  /** One turn of the outer loop of split_batches: strip the piece, skip it
      when blank, yield it whole when within the limit, and batch its words
      otherwise. */
  method SplitPiece(piece: string) returns (batches: seq<string>)
    ensures batches == BatchPiece(piece)
  {
    BatchPieceCases(piece);
    var sent := Strip(piece);
    if sent == [] {
      return [];
    }
    if |sent| <= TextLengthLimit {
      batches := [sent];
    } else {
      batches := SplitLong(Words(sent));
    }
  }

  /** The inner loop of split_batches over the words of a stripped piece
      longer than the limit. */
  method SplitLong(words: seq<string>) returns (batches: seq<string>)
    ensures batches == Greedy([], words)
  {
    batches := [];
    var batch := "";
    for j := 0 to |words|
      invariant batches + Greedy(batch, words[j..]) == Greedy([], words)
    {
      var word := words[j];
      GreedyAt(batch, words, j);
      if |batch + word| > TextLengthLimit && batch != [] {
        batches := batches + [batch];
        batch := word;
      } else {
        batch := batch + " " + word;
      }
    }
    assert words[|words|..] == [];
    if batch != [] {
      batches := batches + [batch];
    }
  }

  // ---------------------------------------------------------------------------
  // Greedy batching of one long piece
  // ---------------------------------------------------------------------------

  lemma WordsOfCons(c: string, chunks: seq<string>)
    ensures WordsOf([c] + chunks) == Words(c) + WordsOf(chunks)
  {
    assert ([c] + chunks)[1..] == chunks;
  }

  /** Every word reaches exactly one batch, in order, and the accumulator is
      flushed at the end. */
  lemma {:induction false} GreedyKeepsWords(batch: string, words: seq<string>)
    requires AllWords(words)
    ensures WordsOf(Greedy(batch, words)) == Words(batch) + words
    decreases |words|
  {
    if words == [] {
      if batch == [] {
        assert Words(batch) == [];
      } else {
        WordsOfCons(batch, []);
      }
    } else {
      var w, rest := words[0], words[1..];
      AllWordsTail(words);
      assert words == [w] + rest;
      if |batch + w| > TextLengthLimit && batch != [] {
        GreedyEmitStep(batch, words);
        GreedyKeepsWords(w, rest);
        WordsOfWord(w);
        WordsOfCons(batch, Greedy(w, rest));
      } else {
        GreedyAppendStep(batch, words);
        GreedyKeepsWords(batch + " " + w, rest);
        WordsSnoc(batch, w);
      }
    }
  }

  /** No batch is without a word. */
  lemma {:induction false} GreedyNoEmptyBatch(batch: string, words: seq<string>)
    requires AllWords(words)
    requires batch == [] || Words(batch) != []
    ensures forall k :: 0 <= k < |Greedy(batch, words)| ==> Words(Greedy(batch, words)[k]) != []
    decreases |words|
  {
    if words != [] {
      var w, rest := words[0], words[1..];
      AllWordsTail(words);
      WordsSnoc(batch, w);
      if |batch + w| > TextLengthLimit && batch != [] {
        WordsOfWord(w);
        GreedyNoEmptyBatch(w, rest);
      } else {
        GreedyNoEmptyBatch(batch + " " + w, rest);
      }
    }
  }

  /** A batch of two or more words is at most one character over the limit:
      the test leaves out the space that the append adds. */
  lemma {:induction false} GreedyBound(batch: string, words: seq<string>)
    requires AllWords(words)
    requires |Words(batch)| >= 2 ==> |batch| <= TextLengthLimit + 1
    ensures forall k :: 0 <= k < |Greedy(batch, words)| ==>
              |Words(Greedy(batch, words)[k])| >= 2 ==> |Greedy(batch, words)[k]| <= TextLengthLimit + 1
    decreases |words|
  {
    if words != [] {
      var w, rest := words[0], words[1..];
      AllWordsTail(words);
      if |batch + w| > TextLengthLimit && batch != [] {
        WordsOfWord(w);
        GreedyBound(w, rest);
      } else {
        WordsSnoc(batch, w);
        assert batch == [] ==> Words(batch) == [];
        GreedyBound(batch + " " + w, rest);
      }
    }
  }

  /** Each batch is its words joined by single spaces; the first batch of a
      long piece carries a leading space. */
  lemma {:induction false} GreedyShape(batch: string, words: seq<string>, lead: string)
    requires AllWords(words)
    requires lead == " " || lead == []
    requires batch == [] ==> lead == " "
    requires batch != [] ==> Words(batch) != [] && batch == lead + Join(Words(batch))
    ensures forall k :: 0 <= k < |Greedy(batch, words)| ==>
              Greedy(batch, words)[k] == LeadOf(k, lead) + Join(Words(Greedy(batch, words)[k]))
    decreases |words|
  {
    if words != [] {
      var w, rest := words[0], words[1..];
      AllWordsTail(words);
      if |batch + w| > TextLengthLimit && batch != [] {
        WordsOfWord(w);
        assert w == [] + Join(Words(w));
        GreedyShape(w, rest, []);
      } else {
        ShapeSnoc(batch, w, lead);
        GreedyShape(batch + " " + w, rest, lead);
      }
    }
  }

  /** Every word after the first in a batch was appended because the batch
      so far plus that word fitted the limit. */
  lemma {:induction false} GreedyFits(batch: string, words: seq<string>, lead: string)
    requires AllWords(words)
    requires lead == " " || lead == []
    requires batch == [] ==> lead == " "
    requires batch != [] ==> Words(batch) != [] && batch == lead + Join(Words(batch))
    requires FitsWithin(batch, lead)
    ensures forall k :: 0 <= k < |Greedy(batch, words)| ==> FitsWithin(Greedy(batch, words)[k], LeadOf(k, lead))
    decreases |words|
  {
    if words != [] {
      var w, rest := words[0], words[1..];
      AllWordsTail(words);
      if |batch + w| > TextLengthLimit && batch != [] {
        assert Words(w) == [w] && w == [] + Join(Words(w)) by { WordsOfWord(w); }
        GreedyFits(w, rest, []);
        FitsCons(batch, Greedy(w, rest), lead);
        assert Greedy(batch, words) == [batch] + Greedy(w, rest);
      } else {
        var next := batch + " " + w;
        FitsSnoc(batch, w, lead);
        ShapeSnoc(batch, w, lead);
        GreedyFits(next, rest, lead);
        assert Greedy(batch, words) == Greedy(next, rest);
      }
    }
  }

  /** Appending a word to a batch keeps it its words joined by spaces. */
  lemma ShapeSnoc(batch: string, w: string, lead: string)
    requires IsWord(w)
    requires batch == [] ==> lead == " "
    requires batch != [] ==> Words(batch) != [] && batch == lead + Join(Words(batch))
    ensures Words(batch + " " + w) == Words(batch) + [w]
    ensures batch + " " + w == lead + Join(Words(batch + " " + w))
  {
    WordsSnoc(batch, w);
    if batch == [] {
      ShapeStart(w);
    } else {
      ShapeAppend(batch, Words(batch), w, lead);
    }
  }

  lemma ShapeStart(w: string)
    ensures [] + " " + w == " " + Join(Words([]) + [w])
  {
    assert Words([]) + [w] == [w];
  }

  lemma ShapeAppend(batch: string, ws: seq<string>, w: string, lead: string)
    requires ws != [] && batch == lead + Join(ws)
    ensures batch + " " + w == lead + Join(ws + [w])
  {
    JoinSnoc(ws, w);
  }

  lemma FitsCons(batch: string, tail: seq<string>, lead: string)
    requires FitsWithin(batch, lead)
    requires forall k :: 0 <= k < |tail| ==> FitsWithin(tail[k], LeadOf(k, []))
    ensures forall k :: 0 <= k < |[batch] + tail| ==> FitsWithin(([batch] + tail)[k], LeadOf(k, lead))
  {
    forall k | 0 <= k < |[batch] + tail| ensures FitsWithin(([batch] + tail)[k], LeadOf(k, lead)) {
      if k > 0 {
        assert ([batch] + tail)[k] == tail[k - 1];
        assert LeadOf(k, lead) == LeadOf(k - 1, []);
      }
    }
  }

  /** Appending a word that fits keeps every word of the batch fitting. */
  lemma FitsSnoc(batch: string, w: string, lead: string)
    requires IsWord(w)
    requires batch != [] ==> batch == lead + Join(Words(batch))
    requires batch != [] ==> |batch| + |w| <= TextLengthLimit
    requires FitsWithin(batch, lead)
    ensures FitsWithin(batch + " " + w, lead)
  {
    var ws := Words(batch);
    assert ws != [] ==> batch != [] by { assert Words([]) == []; }
    FitsSnocWords(ws, w, lead);
    WordsSnoc(batch, w);
  }

  lemma FitsSnocWords(ws: seq<string>, w: string, lead: string)
    requires ws != [] ==> |lead + Join(ws)| + |w| <= TextLengthLimit
    requires forall m :: 1 <= m < |ws| ==> |lead + Join(ws[..m])| + |ws[m]| <= TextLengthLimit
    ensures forall m :: 1 <= m < |ws + [w]| ==> |lead + Join((ws + [w])[..m])| + |(ws + [w])[m]| <= TextLengthLimit
  {
    var ws' := ws + [w];
    forall m | 1 <= m < |ws'|
      ensures |lead + Join(ws'[..m])| + |ws'[m]| <= TextLengthLimit
    {
      if m < |ws| {
        assert ws'[..m] == ws[..m] && ws'[m] == ws[m];
      } else {
        assert ws'[..m] == ws && ws'[m] == w;
      }
    }
  }

  /** Every batch but the last was closed because it plus the next word
      would exceed the limit. */
  lemma {:induction false} GreedyBreaks(batch: string, words: seq<string>)
    requires AllWords(words)
    requires batch == [] || Words(batch) != []
    ensures forall k :: 0 <= k < |Greedy(batch, words)| - 1 ==> ClosedBeforeNext(Greedy(batch, words), k)
    decreases |words|
  {
    GreedyNoEmptyBatch(batch, words);
    if words != [] {
      var w, rest := words[0], words[1..];
      AllWordsTail(words);
      WordsSnoc(batch, w);
      if |batch + w| > TextLengthLimit && batch != [] {
        var tail := Greedy(w, rest);
        WordsOfWord(w);
        GreedyBreaks(w, rest);
        GreedyKeepsWords(w, rest);
        GreedyNoEmptyBatch(w, rest);
        assert tail != [] by { assert WordsOf(tail) != []; }
        assert WordsOf(tail) == Words(tail[0]) + WordsOf(tail[1..]);
        assert WordsOf(tail)[0] == w;
        assert Words(tail[0])[0] == w;
        var out := Greedy(batch, words);
        assert out == [batch] + tail;
        forall k | 0 <= k < |out| - 1 ensures ClosedBeforeNext(out, k) {
          if k > 0 {
            assert ClosedBeforeNext(tail, k - 1);
            assert out[k] == tail[k - 1] && out[k + 1] == tail[k];
          }
        }
      } else {
        GreedyBreaks(batch + " " + w, rest);
      }
    }
  }

  /** Greedy batching of `words` meets the declarative description. */
  lemma GreedyIsGreedyBatching(words: seq<string>)
    requires AllWords(words)
    ensures IsGreedyBatching(Greedy([], words), words, " ")
  {
    assert Words([]) == [];
    GreedyKeepsWords([], words);
    GreedyNoEmptyBatch([], words);
    GreedyShape([], words, " ");
    GreedyFits([], words, " ");
    GreedyBreaks([], words);
  }

  /** Appending the rest of a batch's words, each of which fits. */
  lemma {:induction false} GreedyFill(lead: string, ws: seq<string>, m: nat, rest: seq<string>)
    requires 1 <= m <= |ws|
    requires forall n :: m <= n < |ws| ==> |lead + Join(ws[..n])| + |ws[n]| <= TextLengthLimit
    ensures Greedy(lead + Join(ws[..m]), ws[m..] + rest) == Greedy(lead + Join(ws), rest)
    decreases |ws| - m
  {
    if m == |ws| {
      assert ws[..m] == ws && ws[m..] + rest == rest;
    } else {
      FillStep(lead, ws, m, rest);
      GreedyFill(lead, ws, m + 1, rest);
    }
  }

  /** One append of GreedyFill: word `m` joins the first `m`. */
  lemma FillStep(lead: string, ws: seq<string>, m: nat, rest: seq<string>)
    requires 1 <= m < |ws|
    requires |lead + Join(ws[..m])| + |ws[m]| <= TextLengthLimit
    ensures Greedy(lead + Join(ws[..m]), ws[m..] + rest) == Greedy(lead + Join(ws[..m + 1]), ws[m + 1..] + rest)
  {
    var words := ws[m..] + rest;
    var batch := lead + Join(ws[..m]);
    assert words != [] && words[0] == ws[m] && words[1..] == ws[m + 1..] + rest;
    GreedyAppendStep(batch, words);
    assert batch + " " + ws[m] == lead + Join(ws[..m + 1]) by {
      assert ws[..m + 1] == ws[..m] + [ws[m]];
      JoinSnoc(ws[..m], ws[m]);
    }
  }

  /** One turn of the inner loop that appends the next word. */
  lemma GreedyAppendStep(batch: string, words: seq<string>)
    requires words != [] && (|batch + words[0]| <= TextLengthLimit || batch == [])
    ensures Greedy(batch, words) == Greedy(batch + " " + words[0], words[1..])
  {
  }

  /** One turn of the inner loop, at word `j`. */
  lemma GreedyAt(batch: string, words: seq<string>, j: nat)
    requires j < |words|
    ensures |batch + words[j]| > TextLengthLimit && batch != [] ==>
              Greedy(batch, words[j..]) == [batch] + Greedy(words[j], words[j + 1..])
    ensures !(|batch + words[j]| > TextLengthLimit && batch != []) ==>
              Greedy(batch, words[j..]) == Greedy(batch + " " + words[j], words[j + 1..])
  {
    assert words[j..][1..] == words[j + 1..];
  }

  /** One turn of the inner loop that closes the batch. */
  lemma GreedyEmitStep(batch: string, words: seq<string>)
    requires words != [] && |batch + words[0]| > TextLengthLimit && batch != []
    ensures Greedy(batch, words) == [batch] + Greedy(words[0], words[1..])
  {
  }

  /** The batches after the first of a greedy batching are a greedy
      batching of their own words. */
  lemma GreedyBatchingTail(chunks: seq<string>, words: seq<string>, lead: string)
    requires chunks != []
    requires IsGreedyBatching(chunks, words, lead)
    ensures IsGreedyBatching(chunks[1..], WordsOf(chunks[1..]), [])
  {
    var tail := chunks[1..];
    forall k | 0 <= k < |tail|
      ensures Words(tail[k]) != [] && tail[k] == LeadOf(k, []) + Join(Words(tail[k]))
    {
      assert tail[k] == chunks[k + 1];
    }
    forall k | 0 <= k < |tail| ensures FitsWithin(tail[k], LeadOf(k, [])) {
      assert tail[k] == chunks[k + 1];
      assert LeadOf(k + 1, lead) == [];
    }
    forall k | 0 <= k < |tail| - 1 ensures ClosedBeforeNext(tail, k) {
      assert ClosedBeforeNext(chunks, k + 1);
      assert tail[k] == chunks[k + 1] && tail[k + 1] == chunks[k + 2];
    }
  }

  /** The declarative description admits only the greedy batching. */
  lemma {:induction false} GreedyBatchingUnique(chunks: seq<string>, words: seq<string>, lead: string)
    requires lead == " " || lead == []
    requires words != []
    requires IsGreedyBatching(chunks, words, lead)
    ensures chunks == Greedy(lead + words[0], words[1..])
    decreases |chunks|
  {
    if chunks == [] {
      assert false;
    } else {
      var c := chunks[0];
      var ws := Words(c);
      var rest := WordsOf(chunks[1..]);
      assert words == ws + rest;
      assert ws != [] && c == lead + Join(ws);
      assert ws[..1] == [ws[0]];
      assert words[1..] == ws[1..] + rest;
      assert FitsWithin(c, LeadOf(0, lead));
      GreedyFill(lead, ws, 1, rest);
      assert lead + words[0] == lead + Join(ws[..1]);
      assert Greedy(lead + words[0], words[1..]) == Greedy(c, rest);
      assert c != [] by { assert Words([]) == []; }
      var tail := chunks[1..];
      if tail == [] {
        assert rest == [];
      } else {
        assert Words(tail[0]) != [];
        assert rest == Words(tail[0]) + WordsOf(tail[1..]);
        assert rest[0] == Words(chunks[1])[0];
        assert ClosedBeforeNext(chunks, 0);
        assert |c + rest[0]| > TextLengthLimit;
        assert Greedy(c, rest) == [c] + Greedy(rest[0], rest[1..]);
        GreedyBatchingTail(chunks, words, lead);
        GreedyBatchingUnique(tail, rest, []);
        assert [] + rest[0] == rest[0];
      }
    }
  }

  /** Greedy batching of `words` is exactly the batching that meets the
      declarative description. */
  lemma GreedyCharacterized(chunks: seq<string>, words: seq<string>)
    requires AllWords(words)
    ensures chunks == Greedy([], words) <==> IsGreedyBatching(chunks, words, " ")
  {
    GreedyIsGreedyBatching(words);
    if IsGreedyBatching(chunks, words, " ") {
      if words != [] {
        GreedyBatchingUnique(chunks, words, " ");
        assert Greedy([], words) == Greedy(" " + words[0], words[1..]) by {
          assert [] + " " + words[0] == " " + words[0];
        }
      }
    }
  }

  // ---------------------------------------------------------------------------
  // One stripped piece
  // ---------------------------------------------------------------------------

  /** A piece over the limit is batched greedily over its words, and by
      nothing else. */
  lemma LongSentenceBatches(sent: string, chunks: seq<string>)
    requires |sent| > TextLengthLimit
    ensures chunks == BatchSentence(sent) <==> IsGreedyBatching(chunks, Words(sent), " ")
  {
    WordsAreWords(sent);
    GreedyCharacterized(chunks, Words(sent));
  }

  lemma {:induction false} WordsOfKeepContent(chunks: seq<string>)
    ensures RemoveSpaces(Concat(chunks)) == Concat(WordsOf(chunks))
  {
    if chunks != [] {
      WordsOfKeepContent(chunks[1..]);
      RemoveSpacesAppend(chunks[0], Concat(chunks[1..]));
      WordsKeepContent(chunks[0]);
      ConcatAppend(Words(chunks[0]), WordsOf(chunks[1..]));
    }
  }

  lemma BatchSentenceKeepsContent(sent: string)
    ensures RemoveSpaces(Concat(BatchSentence(sent))) == RemoveSpaces(sent)
  {
    if sent != [] {
      if |sent| <= TextLengthLimit {
        assert [sent][1..] == [];
        assert Concat([sent]) == sent;
      } else {
        var chunks := Greedy([], Words(sent));
        assert BatchSentence(sent) == chunks;
        WordsAreWords(sent);
        GreedyKeepsWords([], Words(sent));
        assert Words([]) == [];
        assert WordsOf(chunks) == Words(sent);
        WordsOfKeepContent(chunks);
        WordsKeepContent(sent);
      }
    }
  }

  /** Batches of a stripped piece are never blank and keep the length
      bound. */
  lemma BatchSentenceChunks(sent: string)
    requires sent == [] || (!IsSpace(sent[0]) && !IsSpace(sent[|sent| - 1]))
    ensures forall k :: 0 <= k < |BatchSentence(sent)| ==>
              !AllSpace(BatchSentence(sent)[k]) && WithinBound(BatchSentence(sent)[k])
  {
    if sent != [] {
      if |sent| <= TextLengthLimit {
      } else {
        var words := Words(sent);
        WordsAreWords(sent);
        assert Words([]) == [];
        GreedyNoEmptyBatch([], words);
        GreedyBound([], words);
        forall k | 0 <= k < |BatchSentence(sent)|
          ensures !AllSpace(BatchSentence(sent)[k]) && WithinBound(BatchSentence(sent)[k])
        {
          WordsEmptyIff(BatchSentence(sent)[k]);
        }
      }
    }
  }

  /** The three outcomes of one turn of the outer loop. */
  lemma BatchPieceCases(piece: string)
    ensures var sent := Strip(piece);
            BatchPiece(piece) ==
              if sent == [] then []
              else if |sent| <= TextLengthLimit then [sent]
              else Greedy([], Words(sent))
  {
  }

  lemma BatchPieceChunks(piece: string)
    ensures forall k :: 0 <= k < |BatchPiece(piece)| ==> GoodBatch(BatchPiece(piece)[k])
  {
    StripSpec(piece);
    BatchSentenceChunks(Strip(piece));
  }

  // ---------------------------------------------------------------------------
  // The whole text
  // ---------------------------------------------------------------------------

  lemma {:induction false} FlatMapAppend(f: string -> seq<string>, a: seq<string>, b: seq<string>)
    ensures FlatMap(f, a + b) == FlatMap(f, a) + FlatMap(f, b)
    decreases |b|
  {
    if b == [] {
      assert a + b == a;
    } else {
      var b', x := b[..|b| - 1], b[|b| - 1];
      assert (a + b)[..|a + b| - 1] == a + b' && (a + b)[|a + b| - 1] == x;
      assert FlatMap(f, a + b) == FlatMap(f, a + b') + f(x);
      FlatMapAppend(f, a, b');
      assert FlatMap(f, b) == FlatMap(f, b') + f(x);
    }
  }

  /** A property of every element of every `f(x)` holds of every element
      of the flat map. */
  lemma {:induction false} FlatMapKeeps(f: string -> seq<string>, p: string -> bool, xs: seq<string>)
    requires forall x, k :: 0 <= k < |f(x)| ==> p(f(x)[k])
    ensures forall k :: 0 <= k < |FlatMap(f, xs)| ==> p(FlatMap(f, xs)[k])
    decreases |xs|
  {
    if xs != [] {
      var a, b := FlatMap(f, xs[..|xs| - 1]), f(xs[|xs| - 1]);
      FlatMapKeeps(f, p, xs[..|xs| - 1]);
      forall k | 0 <= k < |a + b| ensures p((a + b)[k]) {
        if k >= |a| { assert (a + b)[k] == b[k - |a|]; }
      }
    }
  }

  lemma FlatMapOne(f: string -> seq<string>, x: string)
    ensures FlatMap(f, [x]) == f(x)
  {
    assert [x][..0] == [];
  }

  lemma FlatMapAt(f: string -> seq<string>, xs: seq<string>, i: nat)
    requires i < |xs|
    ensures FlatMap(f, xs) == FlatMap(f, xs[..i]) + f(xs[i]) + FlatMap(f, xs[i + 1..])
  {
    assert xs == xs[..i + 1] + xs[i + 1..];
    FlatMapAppend(f, xs[..i + 1], xs[i + 1..]);
    FlatMapSnoc(f, xs, i);
  }

  lemma FlatMapSnoc(f: string -> seq<string>, xs: seq<string>, i: nat)
    requires i < |xs|
    ensures FlatMap(f, xs[..i + 1]) == FlatMap(f, xs[..i]) + f(xs[i])
  {
    assert xs[..i + 1][..i] == xs[..i];
  }

  /** Piece `i` contributes its batches between those of the pieces before
      it and those of the pieces after it. */
  lemma BatchesAt(text: string, i: nat)
    requires i < |Segments(text)|
    ensures var segs := Segments(text);
            Batches(text) == BatchAll(segs[..i]) + BatchPiece(segs[i]) + BatchAll(segs[i + 1..])
  {
    FlatMapAt(BatchPiece, Segments(text), i);
  }

  /** A stripped piece within the limit is emitted exactly once, unchanged,
      after the batches of the pieces before it and before those after it. */
  lemma ShortSentenceEmitted(text: string, i: nat)
    requires i < |Segments(text)|
    requires Strip(Segments(text)[i]) != [] && |Strip(Segments(text)[i])| <= TextLengthLimit
    ensures var segs := Segments(text);
            Batches(text) == BatchAll(segs[..i]) + [Strip(segs[i])] + BatchAll(segs[i + 1..])
  {
    BatchesAt(text, i);
  }

  /** A piece that is all whitespace contributes nothing. */
  lemma BlankSentenceSkipped(text: string, i: nat)
    requires i < |Segments(text)| && AllSpace(Segments(text)[i])
    ensures var segs := Segments(text);
            Batches(text) == BatchAll(segs[..i]) + BatchAll(segs[i + 1..])
  {
    var segs := Segments(text);
    var before, after := BatchAll(segs[..i]), BatchAll(segs[i + 1..]);
    BatchesAt(text, i);
    BlankPieceBatches(segs[i]);
    assert Batches(text) == before + [] + after;
    assert before + [] == before;
  }

  lemma BlankPieceBatches(piece: string)
    requires AllSpace(piece)
    ensures BatchPiece(piece) == []
  {
    StripEmptyIff(piece);
  }

  lemma {:induction false} BatchAllKeepsContent(segs: seq<string>)
    ensures RemoveSpaces(Concat(BatchAll(segs))) == RemoveSpaces(Concat(segs))
    decreases |segs|
  {
    if segs != [] {
      var init, last := segs[..|segs| - 1], segs[|segs| - 1];
      assert segs == init + [last];
      ConcatAppend(init, [last]);
      assert [last][1..] == [];
      assert Concat([last]) == last;
      var a, b := BatchAll(init), BatchSentence(Strip(last));
      assert BatchAll(segs) == a + b by { assert BatchPiece(last) == b; }
      BatchAllKeepsContent(init);
      ConcatAppend(a, b);
      RemoveSpacesAppend(Concat(a), Concat(b));
      BatchSentenceKeepsContent(Strip(last));
      StripKeepsContent(last);
      assert RemoveSpaces(Concat(BatchAll(segs))) == RemoveSpaces(Concat(init)) + RemoveSpaces(last);
      RemoveSpacesAppend(Concat(init), last);
    }
  }

  /** Deleting all whitespace from the batches, joined, gives the text with
      all whitespace deleted: nothing but whitespace is lost, added or
      reordered. */
  lemma BatchesKeepContent(text: string)
    ensures RemoveSpaces(Concat(Batches(text))) == RemoveSpaces(text)
  {
    BatchAllKeepsContent(Segments(text));
    SegmentsPartition(text);
  }

  lemma BatchAllChunks(segs: seq<string>)
    ensures GoodBatches(BatchAll(segs))
  {
    forall piece ensures forall k :: 0 <= k < |BatchPiece(piece)| ==> GoodBatch(BatchPiece(piece)[k]) {
      BatchPieceChunks(piece);
    }
    FlatMapKeeps(BatchPiece, GoodBatch, segs);
  }

  /** No batch is empty or whitespace only. */
  lemma BatchesNonBlank(text: string)
    ensures forall k :: 0 <= k < |Batches(text)| ==> Batches(text)[k] != [] && !AllSpace(Batches(text)[k])
  {
    BatchAllChunks(Segments(text));
  }

  /** Every batch is within one character over the limit, except a batch
      holding a single word, which may be of any length. */
  lemma BatchesWithinBound(text: string)
    ensures forall k :: 0 <= k < |Batches(text)| ==> WithinBound(Batches(text)[k])
  {
    BatchAllChunks(Segments(text));
  }

  /** The batcher yields nothing exactly when the text is empty or all
      whitespace. */
  lemma BatchesEmptyIff(text: string)
    ensures Batches(text) == [] <==> AllSpace(text)
  {
    var chunks := Batches(text);
    BatchesKeepContent(text);
    RemoveSpacesEmptyIff(text);
    if chunks != [] {
      BatchesNonBlank(text);
      RemoveSpacesEmptyIff(chunks[0]);
      RemoveSpacesAppend(chunks[0], Concat(chunks[1..]));
    }
  }
}
