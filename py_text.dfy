/**
 * The three pieces of Python's `str` behaviour that the text batcher relies
 * on, restated over `string` (a sequence of Unicode code points):
 *   - `str.isspace()`      -- IsSpace
 *   - `str.strip()`        -- Strip
 *   - `str.split()`        -- Words (no separator argument: runs of whitespace)
 * together with the helpers used to state what the batcher preserves
 * (RemoveSpaces, Concat) and `" ".join` (Join).
 */
module PyText {

  /** The code points for which Python's `str.isspace()` is true; `strip()`
      and `split()` without arguments use exactly this set. It holds the
      ASCII blank and control separators, and no letter, digit or sentence
      terminator. */
  predicate IsSpace(c: char)
    ensures c == ' ' || c == '\t' || c == '\n' || c == '\r' ==> IsSpace(c)
    ensures IsSpace(c) ==> !('0' <= c <= '9' || 'A' <= c <= 'Z' || 'a' <= c <= 'z')
    ensures IsSpace(c) ==> c != '.' && c != '!' && c != '?'
  {
    || ('\t' <= c <= '\r')
    || ('\U{1C}' <= c <= ' ')
    || c == '\U{85}' || c == '\U{A0}' || c == '\U{1680}'
    || ('\U{2000}' <= c <= '\U{200A}')
    || c == '\U{2028}' || c == '\U{2029}' || c == '\U{202F}' || c == '\U{205F}'
    || c == '\U{3000}'
  }

  predicate AllSpace(s: string) {
    forall i :: 0 <= i < |s| ==> IsSpace(s[i])
  }

  predicate NoSpace(s: string) {
    forall i :: 0 <= i < |s| ==> !IsSpace(s[i])
  }

  /** A word as `str.split()` produces it: non-empty, no whitespace. */
  predicate IsWord(w: string) {
    w != [] && NoSpace(w)
  }

  predicate AllWords(ws: seq<string>) {
    forall k :: 0 <= k < |ws| ==> IsWord(ws[k])
  }

  lemma AllWordsTail(ws: seq<string>)
    requires ws != [] && AllWords(ws)
    ensures AllWords(ws[1..])
  {
    forall k | 0 <= k < |ws[1..]| ensures IsWord(ws[1..][k]) { assert ws[1..][k] == ws[k + 1]; }
  }

  // ---------------------------------------------------------------------------
  // Concatenation, space-joining and whitespace removal
  // ---------------------------------------------------------------------------

  /** `"".join(ss)` */
  function Concat(ss: seq<string>): string {
    if ss == [] then [] else ss[0] + Concat(ss[1..])
  }

  lemma {:induction false} ConcatAppend(a: seq<string>, b: seq<string>)
    ensures Concat(a + b) == Concat(a) + Concat(b)
  {
    if a != [] {
      assert (a + b)[1..] == a[1..] + b;
      ConcatAppend(a[1..], b);
    } else {
      assert a + b == b;
    }
  }

  /** `" ".join(ws)`, defined from the back because a batch grows at its end. */
  function Join(ws: seq<string>): string {
    if ws == [] then []
    else if |ws| == 1 then ws[0]
    else Join(ws[..|ws| - 1]) + " " + ws[|ws| - 1]
  }

  /** The text with every whitespace character deleted. */
  function RemoveSpaces(s: string): (r: string)
    ensures |r| <= |s|
  {
    if s == [] then []
    else (if IsSpace(s[0]) then [] else [s[0]]) + RemoveSpaces(s[1..])
  }

  lemma {:induction false} RemoveSpacesAppend(a: string, b: string)
    ensures RemoveSpaces(a + b) == RemoveSpaces(a) + RemoveSpaces(b)
  {
    if a != [] {
      assert (a + b)[1..] == a[1..] + b;
      RemoveSpacesAppend(a[1..], b);
    } else {
      assert a + b == b;
    }
  }

  lemma {:induction false} RemoveSpacesEmptyIff(s: string)
    ensures RemoveSpaces(s) == [] <==> AllSpace(s)
  {
    if s != [] {
      RemoveSpacesEmptyIff(s[1..]);
      if AllSpace(s) {
        assert AllSpace(s[1..]) by {
          forall i | 0 <= i < |s[1..]| ensures IsSpace(s[1..][i]) { assert s[1..][i] == s[i + 1]; }
        }
      }
      if AllSpace(s[1..]) && IsSpace(s[0]) {
        forall i | 0 <= i < |s| ensures IsSpace(s[i]) { if i > 0 { assert s[i] == s[1..][i - 1]; } }
      }
    }
  }

  lemma {:induction false} RemoveSpacesOfNoSpace(s: string)
    requires NoSpace(s)
    ensures RemoveSpaces(s) == s
  {
    if s != [] {
      assert NoSpace(s[1..]) by {
        forall i | 0 <= i < |s[1..]| ensures !IsSpace(s[1..][i]) { assert s[1..][i] == s[i + 1]; }
      }
      RemoveSpacesOfNoSpace(s[1..]);
    }
  }

  lemma {:induction false} RemoveSpacesOfAllSpace(s: string)
    requires AllSpace(s)
    ensures RemoveSpaces(s) == []
  {
    RemoveSpacesEmptyIff(s);
  }

  // ---------------------------------------------------------------------------
  // str.strip()
  // ---------------------------------------------------------------------------

  /** `s.lstrip()`: the suffix of `s` left after dropping leading whitespace. */
  function TrimStart(s: string): (r: string)
    ensures |r| <= |s| && r == s[|s| - |r|..]
    ensures AllSpace(s[..|s| - |r|])
    ensures r == [] || !IsSpace(r[0])
  {
    if s != [] && IsSpace(s[0]) then
      var r := TrimStart(s[1..]);
      var gap := s[1..][..|s| - 1 - |r|];
      assert s[..|s| - |r|] == [s[0]] + gap;
      AllSpaceCons(s[0], gap);
      r
    else s
  }

  lemma AllSpaceCons(c: char, s: string)
    requires IsSpace(c) && AllSpace(s)
    ensures AllSpace([c] + s)
  {
    forall i | 0 < i < |[c] + s| ensures IsSpace(([c] + s)[i]) {
      assert ([c] + s)[i] == s[i - 1];
    }
  }

  /** `s.rstrip()`: the prefix of `s` left after dropping trailing whitespace. */
  function TrimEnd(s: string): (r: string)
    ensures |r| <= |s| && r == s[..|r|]
    ensures AllSpace(s[|r|..])
    ensures r == [] || !IsSpace(r[|r| - 1])
  {
    if s != [] && IsSpace(s[|s| - 1]) then
      var r := TrimEnd(s[..|s| - 1]);
      assert s[|r|..] == s[..|s| - 1][|r|..] + [s[|s| - 1]];
      r
    else s
  }

  /** `s.strip()`: never longer than `s`, and what it keeps neither starts
      nor ends with whitespace. */
  function Strip(s: string): (r: string)
    ensures |r| <= |s|
    ensures r == [] || (!IsSpace(r[0]) && !IsSpace(r[|r| - 1]))
  {
    var t := TrimStart(s);
    StripEnds(t, TrimEnd(t));
    TrimEnd(t)
  }

  /** Strip removes a whitespace prefix and a whitespace suffix and nothing
      else; with the ends fixed by Strip's own contract, this determines it. */
  lemma StripSpec(s: string)
    ensures exists i, j :: 0 <= i <= j <= |s| && Strip(s) == s[i..j] && AllSpace(s[..i]) && AllSpace(s[j..])
  {
    var t := TrimStart(s);
    StripBounds(s, t, TrimEnd(t));
  }

  lemma StripBounds(s: string, t: string, r: string)
    requires |t| <= |s| && t == s[|s| - |t|..] && AllSpace(s[..|s| - |t|])
    requires |r| <= |t| && r == t[..|r|] && AllSpace(t[|r|..])
    ensures var i, j := |s| - |t|, |s| - |t| + |r|;
              0 <= i <= j <= |s| && r == s[i..j] && AllSpace(s[..i]) && AllSpace(s[j..])
  {
    var i := |s| - |t|;
    assert t == s[i..] && r == t[..|r|];
    assert s[i + |r|..] == t[|r|..];
  }

  lemma StripEnds(t: string, r: string)
    requires t == [] || !IsSpace(t[0])
    requires |r| <= |t| && r == t[..|r|]
    requires r == [] || !IsSpace(r[|r| - 1])
    ensures r == [] || (!IsSpace(r[0]) && !IsSpace(r[|r| - 1]))
  {
    if r != [] {
      assert r[0] == t[0];
    }
  }

  lemma TrimStartKeepsContent(s: string)
    ensures RemoveSpaces(TrimStart(s)) == RemoveSpaces(s)
  {
    var t := TrimStart(s);
    var i := |s| - |t|;
    assert s == s[..i] + t;
    RemoveSpacesAppend(s[..i], t);
    RemoveSpacesOfAllSpace(s[..i]);
  }

  lemma TrimEndKeepsContent(s: string)
    ensures RemoveSpaces(TrimEnd(s)) == RemoveSpaces(s)
  {
    var r := TrimEnd(s);
    assert s == r + s[|r|..];
    RemoveSpacesAppend(r, s[|r|..]);
    RemoveSpacesOfAllSpace(s[|r|..]);
  }

  /** Stripping deletes whitespace only. */
  lemma StripKeepsContent(s: string)
    ensures RemoveSpaces(Strip(s)) == RemoveSpaces(s)
  {
    TrimStartKeepsContent(s);
    TrimEndKeepsContent(TrimStart(s));
  }

  /** Strip leaves nothing exactly when the text is all whitespace. */
  lemma StripEmptyIff(s: string)
    ensures Strip(s) == [] <==> AllSpace(s)
  {
    StripKeepsContent(s);
    RemoveSpacesEmptyIff(s);
    RemoveSpacesEmptyIff(Strip(s));
    if Strip(s) != [] {
      StripSpec(s);
      assert !AllSpace(Strip(s));
    }
  }

  lemma StripOfTrimmed(s: string)
    requires s != [] && !IsSpace(s[0]) && !IsSpace(s[|s| - 1])
    ensures Strip(s) == s
  {
  }

  // ---------------------------------------------------------------------------
  // str.split()
  // ---------------------------------------------------------------------------

  /** Length of the run of non-whitespace characters at the start of `s`. */
  function WordLen(s: string): (n: nat)
    ensures n <= |s| && NoSpace(s[..n]) && (n < |s| ==> IsSpace(s[n]))
  {
    if s == [] || IsSpace(s[0]) then 0
    else
      var n := 1 + WordLen(s[1..]);
      assert s[..n] == [s[0]] + s[1..][..n - 1];
      n
  }

  /** The leading word of `a + t` is that of `a` when it ends inside `a` or
      when `t` starts with whitespace. */
  lemma {:induction false} WordLenAppend(a: string, t: string)
    requires WordLen(a) < |a| || (t != [] && IsSpace(t[0]))
    ensures WordLen(a + t) == WordLen(a)
  {
    if a == [] {
      assert a + t == t;
    } else if !IsSpace(a[0]) {
      assert (a + t)[1..] == a[1..] + t;
      WordLenAppend(a[1..], t);
    }
  }

  lemma {:induction false} WordLenOfNoSpace(w: string)
    requires NoSpace(w)
    ensures WordLen(w) == |w|
  {
    if w != [] {
      assert NoSpace(w[1..]) by {
        forall i | 0 <= i < |w[1..]| ensures !IsSpace(w[1..][i]) { assert w[1..][i] == w[i + 1]; }
      }
      WordLenOfNoSpace(w[1..]);
    }
  }

  /** `s.split()`: the maximal runs of non-whitespace characters, in order.
      Two words are always separated by whitespace, so a text of `|s|`
      characters has at most `(|s| + 1) / 2` of them. */
  function Words(s: string): (r: seq<string>)
    ensures 2 * |r| <= |s| + 1
    decreases |s|
  {
    if s == [] then []
    else if IsSpace(s[0]) then Words(s[1..])
    else
      var n := WordLen(s);
      assert n > 0;
      var rest := Words(s[n..]);
      assert n < |s| ==> rest == Words(s[n + 1..]) by {
        if n < |s| { assert s[n..][1..] == s[n + 1..]; }
      }
      [s[..n]] + rest
  }

  /** Every element of `s.split()` is a word. */
  lemma {:induction false} WordsAreWords(s: string)
    ensures AllWords(Words(s))
    decreases |s|
  {
    if s != [] {
      if IsSpace(s[0]) {
        WordsAreWords(s[1..]);
      } else {
        var n := WordLen(s);
        WordsAreWords(s[n..]);
      }
    }
  }

  /** Splitting keeps every non-whitespace character, in order. */
  lemma {:induction false} WordsKeepContent(s: string)
    ensures Concat(Words(s)) == RemoveSpaces(s)
    decreases |s|
  {
    if s != [] {
      if IsSpace(s[0]) {
        WordsKeepContent(s[1..]);
      } else {
        var n := WordLen(s);
        WordsKeepContent(s[n..]);
        assert s == s[..n] + s[n..];
        RemoveSpacesAppend(s[..n], s[n..]);
        RemoveSpacesOfNoSpace(s[..n]);
      }
    }
  }

  /** `s.split()` is empty exactly when `s` is all whitespace. */
  lemma WordsEmptyIff(s: string)
    ensures Words(s) == [] <==> AllSpace(s)
  {
    WordsKeepContent(s);
    WordsAreWords(s);
    RemoveSpacesEmptyIff(s);
    if Words(s) != [] {
      assert Concat(Words(s)) == Words(s)[0] + Concat(Words(s)[1..]);
    }
  }

  lemma WordsOfWord(w: string)
    requires IsWord(w)
    ensures Words(w) == [w]
  {
    assert w[..|w|] == w;
    WordLenOfNoSpace(w);
    assert w[|w|..] == [];
  }

  /** A whitespace character separates words: `(a + c + b).split()` is
      `a.split() + b.split()`. */
  lemma {:induction false} WordsSplitAtSpace(a: string, c: char, b: string)
    requires IsSpace(c)
    ensures Words(a + [c] + b) == Words(a) + Words(b)
    decreases |a|
  {
    var s := a + [c] + b;
    if a == [] {
      assert s[1..] == b;
    } else if IsSpace(a[0]) {
      assert s[1..] == a[1..] + [c] + b;
      WordsSplitAtSpace(a[1..], c, b);
    } else {
      var m := WordLen(a);
      assert s == a + ([c] + b);
      WordLenAppend(a, [c] + b);
      assert m > 0 && WordLen(s) == m;
      assert s[..m] == a[..m];
      assert s[m..] == a[m..] + [c] + b;
      WordsSplitAtSpace(a[m..], c, b);
      calc {
        Words(s);
        [s[..m]] + Words(s[m..]);
        [a[..m]] + (Words(a[m..]) + Words(b));
        ([a[..m]] + Words(a[m..])) + Words(b);
        Words(a) + Words(b);
      }
    }
  }

  /** Appending a space and a word appends that word to the split. */
  lemma WordsSnoc(batch: string, w: string)
    requires IsWord(w)
    ensures Words(batch + " " + w) == Words(batch) + [w]
  {
    WordsSplitAtSpace(batch, ' ', w);
    WordsOfWord(w);
  }

  /** `" ".join(ws).split() == ws` when every element is a word. */
  lemma {:induction false} WordsOfJoin(ws: seq<string>)
    requires AllWords(ws)
    ensures Words(Join(ws)) == ws
    decreases |ws|
  {
    if ws == [] {
    } else if |ws| == 1 {
      WordsOfWord(ws[0]);
    } else {
      var init := ws[..|ws| - 1];
      WordsOfJoin(init);
      WordsSnoc(Join(init), ws[|ws| - 1]);
    }
  }

  /** Joining one more word onto a join. */
  lemma JoinSnoc(ws: seq<string>, w: string)
    requires ws != []
    ensures Join(ws + [w]) == Join(ws) + " " + w
  {
    assert (ws + [w])[..|ws|] == ws;
  }

  /** The characters of a join are those of its words plus single spaces. */
  lemma {:induction false} JoinLength(ws: seq<string>, n: nat)
    requires ws != [] && forall k :: 0 <= k < |ws| ==> |ws[k]| == n
    ensures |Join(ws)| == (n + 1) * |ws| - 1
    decreases |ws|
  {
    if |ws| > 1 {
      var k := |ws|;
      JoinLength(ws[..k - 1], n);
      assert (n + 1) * k == (n + 1) * (k - 1) + (n + 1);
    }
  }

  lemma {:induction false} JoinEnds(ws: seq<string>)
    requires AllWords(ws) && ws != []
    ensures Join(ws) != []
    ensures Join(ws)[0] == ws[0][0]
    ensures Join(ws)[|Join(ws)| - 1] == ws[|ws| - 1][|ws[|ws| - 1]| - 1]
    decreases |ws|
  {
    if |ws| > 1 {
      JoinEnds(ws[..|ws| - 1]);
    }
  }
}
