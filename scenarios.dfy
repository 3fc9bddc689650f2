/**
 * Worked inputs for split_batches: the two-sentence greeting, a single word
 * longer than the limit, ten thirty-character words, and the batch that
 * ends up one character over the limit because the length test does not
 * count the separating space.
 */
module BatchingScenarios {
  import opened PyText
  import opened Sentences
  import opened TextToSpeech

  /** Words without terminators joined by spaces have no terminator. */
  lemma {:induction false} JoinNoTerminator(ws: seq<string>)
    requires forall k :: 0 <= k < |ws| ==> NoTerminator(ws[k])
    ensures NoTerminator(Join(ws))
    decreases |ws|
  {
    if |ws| > 1 {
      var init, last := ws[..|ws| - 1], ws[|ws| - 1];
      JoinNoTerminator(init);
      var j := Join(init) + " " + last;
      forall i | 0 <= i < |j| ensures !IsTerminator(j[i]) {
        if i > |Join(init)| {
          assert j[i] == last[i - |Join(init)| - 1];
        } else if i < |Join(init)| {
          assert j[i] == Join(init)[i];
        }
      }
    }
  }

  /** A text that is a single piece without terminators, already stripped
      and over the limit, is batched greedily over its words. */
  lemma LongPlainText(text: string)
    requires NoTerminator(text) && |text| > TextLengthLimit
    requires !IsSpace(text[0]) && !IsSpace(text[|text| - 1])
    ensures Batches(text) == Greedy([], Words(text))
  {
    SegmentsOfPlain(text);
    FlatMapOne(BatchPiece, text);
    StripOfTrimmed(text);
  }

  /** Words of one length, none with a terminator, joined by spaces and
      over the limit: they are batched greedily. */
  lemma JoinedWords(ws: seq<string>)
    requires ws != [] && AllWords(ws)
    requires forall k :: 0 <= k < |ws| ==> NoTerminator(ws[k])
    requires |Join(ws)| > TextLengthLimit
    ensures Batches(Join(ws)) == Greedy([], ws)
  {
    JoinNoTerminator(ws);
    JoinEnds(ws);
    var last := ws[|ws| - 1];
    assert IsWord(ws[0]) && IsWord(last);
    assert !IsSpace(ws[0][0]) && !IsSpace(last[|last| - 1]);
    LongPlainText(Join(ws));
    WordsOfJoin(ws);
  }

  /** A text that is a single word longer than the limit, with no `.`, `!`
      or `?`, is sent whole, with the leading space of the first batch: a
      text that is one such 500-character word gives one 501-character
      batch. A terminator inside the word would cut it at the sentence
      split first. */
  lemma LongWordAlone(w: string)
    requires IsWord(w) && NoTerminator(w) && |w| > TextLengthLimit
    ensures Batches(w) == [" " + w]
    ensures |Batches(w)[0]| == |w| + 1
  {
    assert !IsSpace(w[0]) && !IsSpace(w[|w| - 1]);
    LongPlainText(w);
    WordsOfWord(w);
    GreedyOneWord(w);
  }

  lemma GreedyOneWord(w: string)
    ensures Greedy([], [w]) == [" " + w]
  {
    GreedyAppendStep([], [w]);
    assert [] + " " + w == " " + w && [w][1..] == [];
  }

  lemma FiveHundredCharacterWord(w: string)
    requires IsWord(w) && NoTerminator(w) && |w| == 500
    ensures Batches(w) == [" " + w] && |" " + w| == 501
  {
    LongWordAlone(w);
  }

  /** Ten thirty-character words: seven go in the first batch, which with
      its leading space is 217 characters; the other three make a batch of
      92. */
  lemma TenWords(ws: seq<string>)
    requires |ws| == 10 && AllWords(ws)
    requires forall k :: 0 <= k < |ws| ==> |ws[k]| == 30 && NoTerminator(ws[k])
    ensures Batches(Join(ws)) == [" " + Join(ws[..7]), Join(ws[7..])]
    ensures |" " + Join(ws[..7])| == 217 && |Join(ws[7..])| == 92
  {
    JoinLength(ws, 30);
    JoinedWords(ws);
    var first, second := " " + Join(ws[..7]), ws[7..];
    SevenWordsFit(ws);
    // The eighth word does not fit.
    assert |first + second[0]| > TextLengthLimit;
    GreedyEmitStep(first, second);
    ThreeWordsFit(second);
  }

  /** The first seven of ten thirty-character words are appended one by
      one: each test counts at most 1 + 6 * 31 + 30 = 217 characters. */
  lemma SevenWordsFit(ws: seq<string>)
    requires |ws| == 10
    requires forall k :: 0 <= k < |ws| ==> |ws[k]| == 30
    ensures Greedy([], ws) == Greedy(" " + Join(ws[..7]), ws[7..])
    ensures |" " + Join(ws[..7])| == 217
  {
    var first := ws[..7];
    JoinLength(first, 30);
    GreedyAppendStep([], ws);
    assert [] + " " + ws[0] == " " + Join(first[..1]);
    forall n | 1 <= n < |first| ensures |" " + Join(first[..n])| + |first[n]| <= TextLengthLimit {
      assert first[..n] == ws[..n] && first[n] == ws[n];
      JoinLength(ws[..n], 30);
    }
    assert first[1..] + ws[7..] == ws[1..];
    GreedyFill(" ", first, 1, ws[7..]);
  }

  /** Three thirty-character words fill one batch of 92 characters. */
  lemma ThreeWordsFit(ws: seq<string>)
    requires |ws| == 3
    requires forall k :: 0 <= k < |ws| ==> |ws[k]| == 30
    ensures Greedy(ws[0], ws[1..]) == [Join(ws)]
    ensures |Join(ws)| == 92
  {
    JoinLength(ws, 30);
    assert ws[0] == [] + Join(ws[..1]);
    forall n | 1 <= n < |ws| ensures |[] + Join(ws[..n])| + |ws[n]| <= TextLengthLimit {
      JoinLength(ws[..n], 30);
    }
    assert ws[1..] + [] == ws[1..];
    GreedyFill([], ws, 1, []);
    assert [] + Join(ws) == Join(ws);
  }

  /** Three words of 119, 120 and 1 characters: the first two share a batch
      because the test counts 1 + 119 + 120 = 240 characters, and the batch
      sent is 241 characters long, one over the limit. */
  lemma OffByOne(a: string, b: string, c: string)
    requires IsWord(a) && IsWord(b) && IsWord(c)
    requires NoTerminator(a) && NoTerminator(b) && NoTerminator(c)
    requires |a| == 119 && |b| == 120 && |c| == 1
    ensures Batches(Join([a, b, c])) == [" " + a + " " + b, c]
    ensures |" " + a + " " + b| == TextLengthLimit + 1
  {
    JoinThree(a, b, c);
    JoinedWords([a, b, c]);
    GreedyOffByOne(a, b, c);
  }

  lemma JoinThree(a: string, b: string, c: string)
    ensures Join([a, b, c]) == a + " " + b + " " + c
  {
    assert Join([a, b, c]) == Join([a, b]) + " " + c by { assert [a, b, c][..2] == [a, b]; }
    assert Join([a, b]) == a + " " + b by { assert [a, b][..1] == [a]; }
  }

  lemma GreedyOffByOne(a: string, b: string, c: string)
    requires |a| == 119 && |b| == 120 && |c| == 1
    ensures Greedy([], [a, b, c]) == [" " + a + " " + b, c]
  {
    var ws := [a, b, c];
    GreedyAppendStep([], ws);
    assert ws[1..] == [b, c] && [b, c][1..] == [c] && [c][1..] == [];
    GreedyAppendStep([] + " " + a, [b, c]);
    var first := " " + a + " " + b;
    assert [] + " " + a + " " + b == first;
    assert |first + c| > TextLengthLimit;
    GreedyEmitStep(first, [c]);
  }

  /** Two short sentences give two batches, the space after the first full
      stop stripped. */
  lemma Greeting()
    ensures Batches("Hello world. This is a test!") == ["Hello world.", "This is a test!"]
  {
    var text, p0, p1 := "Hello world. This is a test!", "Hello world.", " This is a test!";
    assert Segments(text) == [p0, p1, ""] by {
      GreetingSentences();
      TwoSentences(p0, p1);
    }
    assert Strip(p0) == "Hello world." by { FirstSentenceStripped(); }
    assert Strip(p1) == "This is a test!" by { SecondSentenceStripped(); }
    TwoShortSentences(text, p0, p1);
  }

  /** Two sentences, the second starting where the first ends, are the
      pieces of their concatenation, with the empty remainder after them. */
  lemma TwoSentences(p0: string, p1: string)
    requires IsSentence(p0) && IsSentence(p1)
    ensures Segments(p0 + p1) == [p0, p1, ""]
  {
    var pieces := [p0, p1, ""];
    assert Concat([""]) == "" + Concat([]);
    assert Concat([p1, ""]) == p1 + Concat([""]);
    assert Concat(pieces) == p0 + Concat([p1, ""]);
    assert p0 + p1 + "" == p0 + p1;
    SegmentsUnique(pieces, p0 + p1);
  }

  lemma GreetingSentences()
    ensures "Hello world." + " This is a test!" == "Hello world. This is a test!"
    ensures IsSentence("Hello world.") && IsSentence(" This is a test!")
  {
    var p0, p1 := "Hello world.", " This is a test!";
    assert p0[..|p0| - 1] == "Hello world";
    assert p1[..|p1| - 1] == " This is a test";
  }

  /** A text cut into two sentences and the empty remainder, each sentence
      short once stripped, gives the two stripped sentences. */
  lemma TwoShortSentences(text: string, p0: string, p1: string)
    requires Segments(text) == [p0, p1, ""]
    requires Strip(p0) != [] && |Strip(p0)| <= TextLengthLimit
    requires Strip(p1) != [] && |Strip(p1)| <= TextLengthLimit
    ensures Batches(text) == [Strip(p0), Strip(p1)]
  {
    calc {
      Batches(text);
      FlatMap(BatchPiece, [p0, p1, ""]);
      { FlatMapThree(BatchPiece, p0, p1, ""); }
      BatchPiece(p0) + BatchPiece(p1) + BatchPiece("");
      { ShortPiece(p0); ShortPiece(p1); EmptyPiece(); }
      [Strip(p0)] + [Strip(p1)] + [];
    }
  }

  lemma EmptyPiece()
    ensures BatchPiece("") == []
  {
  }

  lemma FlatMapThree(f: string -> seq<string>, x: string, y: string, z: string)
    ensures FlatMap(f, [x, y, z]) == f(x) + f(y) + f(z)
  {
    assert [x, y, z][..2] == [x, y];
    assert [x, y][..1] == [x];
    FlatMapOne(f, x);
    assert FlatMap(f, [x, y]) == f(x) + f(y);
  }

  lemma ShortPiece(piece: string)
    requires Strip(piece) != [] && |Strip(piece)| <= TextLengthLimit
    ensures BatchPiece(piece) == [Strip(piece)]
  {
  }

  lemma FirstSentenceStripped()
    ensures Strip("Hello world.") == "Hello world."
  {
    var p0 := "Hello world.";
    assert p0[0] == 'H' && p0[|p0| - 1] == '.';
    StripOfTrimmed(p0);
  }

  lemma SecondSentenceStripped()
    ensures Strip(" This is a test!") == "This is a test!"
  {
    var p1 := "This is a test!";
    assert p1[0] == 'T' && p1[|p1| - 1] == '!';
    assert " This is a test!" == [' '] + p1;
    StripAfterSpace(' ', p1);
  }

  lemma StripAfterSpace(c: char, s: string)
    requires IsSpace(c) && s != [] && !IsSpace(s[0]) && !IsSpace(s[|s| - 1])
    ensures Strip([c] + s) == s
  {
    assert ([c] + s)[1..] == s;
    StripOfTrimmed(s);
  }
}
